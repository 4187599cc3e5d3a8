/**
 Query lookup in apps/rest-common/rest-util.c: decode (percent-decoding) and get_variable.
 `mem` is the memory the buffer lies in; decode may look two bytes past the end it is given.
 */
module RestQuery {
  import opened Bytes

  const AMP: u8 := 38
  const EQ: u8 := 61
  const PERCENT: u8 := 37
  const PLUS: u8 := 43

  // ------------------------------------------------------------------ percent-decoding

  predicate IsHex(c: u8) {
    48 <= c <= 57 || 65 <= c <= 70 || 97 <= c <= 102
  }

  function HexValue(c: u8): (v: nat)
    requires IsHex(c)
    ensures v < 16
  {
    if c <= 57 then c - 48 else if c <= 70 then c - 65 + 10 else c - 97 + 10
  }

  predicate Escape(mem: bytes, i: nat)
    requires i + 2 < |mem|
  {
    mem[i] == PERCENT && IsHex(mem[i + 1]) && IsHex(mem[i + 2])
  }

  function Plain(c: u8, form: bool): u8 {
    if form && c == PLUS then 32 else c
  }

  function Symbol(mem: bytes, i: nat, form: bool): u8
    requires i + 2 < |mem|
  {
    if Escape(mem, i) then HexValue(mem[i + 1]) * 16 + HexValue(mem[i + 2]) else Plain(mem[i], form)
  }

  function Next(mem: bytes, i: nat): (j: nat)
    requires i + 2 < |mem|
    ensures j > i
  {
    if Escape(mem, i) then i + 3 else i + 1
  }

  /** The decoded value of mem[i..end]. */
  function Decoded(mem: bytes, i: nat, end: nat, form: bool): bytes
    requires end + 2 <= |mem|
    decreases end - i
  {
    if i >= end then [] else [Symbol(mem, i, form)] + Decoded(mem, Next(mem, i), end, form)
  }

  function Take(b: bytes, n: nat): bytes {
    if |b| <= n then b else b[..n]
  }

  lemma DecodeStep(mem: bytes, i: nat, end: nat, form: bool, whole: bytes, out: bytes)
    requires i < end && end + 2 <= |mem| && whole == out + Decoded(mem, i, end, form)
    ensures whole == (out + [Symbol(mem, i, form)]) + Decoded(mem, Next(mem, i), end, form)
  {
  }

  /** Where reading symbol by symbol leaves off: the end, or behind it when an escape straddles it. */
  function Landing(mem: bytes, i: nat, end: nat): nat
    requires end + 2 <= |mem|
    decreases end - i
  {
    if i >= end then i else Landing(mem, Next(mem, i), end)
  }

  /** No escape straddles an end that no hex digit follows. */
  lemma {:induction false} LandsAtEnd(mem: bytes, i: nat, end: nat)
    requires i <= end && end + 2 <= |mem| && !IsHex(mem[end])
    ensures Landing(mem, i, end) == end
    decreases end - i
  {
    if i < end {
      LandsAtEnd(mem, Next(mem, i), end);
    }
  }

  /** decode: as much of the value as fits before the terminating NUL; the result tells whether the
      input was used up exactly: all of it fitted, and no escape straddles its end. */
  method Decode(mem: bytes, start: nat, end: nat, room: nat, form: bool) returns (out: bytes, complete: bool)
    requires start <= end && end + 2 <= |mem| && room >= 1
    ensures out == Take(Decoded(mem, start, end, form), room - 1)
    ensures complete <==> |Decoded(mem, start, end, form)| <= room - 1 && Landing(mem, start, end) == end
    ensures !IsHex(mem[end]) ==> (complete <==> |Decoded(mem, start, end, form)| <= room - 1)
  {
    out := [];
    var i := start;
    if !IsHex(mem[end]) {
      LandsAtEnd(mem, start, end);
    }
    while i < end && |out| < room - 1
      invariant start <= i && |out| <= room - 1
      invariant Decoded(mem, start, end, form) == out + Decoded(mem, i, end, form)
      invariant Landing(mem, start, end) == Landing(mem, i, end)
    {
      DecodeStep(mem, i, end, form, Decoded(mem, start, end, form), out);
      if mem[i] == PERCENT && IsHex(mem[i + 1]) && IsHex(mem[i + 2]) {
        out := out + [HexValue(mem[i + 1]) * 16 + HexValue(mem[i + 2])];
        i := i + 3;
      } else {
        out := out + [if form && mem[i] == PLUS then 32 else mem[i]];
        i := i + 1;
      }
    }
    complete := i == end;
    DecodeEnd(Decoded(mem, start, end, form), out, Decoded(mem, i, end, form), room - 1);
  }

  lemma DecodeEnd(whole: bytes, out: bytes, rest: bytes, room: nat)
    requires whole == out + rest && |out| <= room && (rest == [] || |out| == room)
    ensures out == Take(whole, room) && (rest == [] <==> |whole| <= room)
  {
    assert rest == [] ==> whole == out;
  }

  /** A stretch without '%' keeps its length; each byte stands for itself, but '+' for a space in a
      form. */
  lemma {:induction false} PlainStretch(mem: bytes, i: nat, end: nat, form: bool)
    requires i <= end && end + 2 <= |mem| && forall k :: i <= k < end ==> mem[k] != 37
    ensures var d := Decoded(mem, i, end, form);
            |d| == end - i && forall k :: 0 <= k < |d| ==> d[k] == if form && mem[i + k] == 43 then 32 else mem[i + k]
    decreases end - i
  {
    if i < end {
      PlainStretch(mem, i + 1, end, form);
      var d := Decoded(mem, i + 1, end, form);
      assert Decoded(mem, i, end, form) == [if form && mem[i] == 43 then 32 else mem[i]] + d;
    }
  }

  /** A '%' that two hex digits do not follow stands for itself. */
  lemma StrayPercent(mem: bytes, i: nat, end: nat, form: bool)
    requires i < end && end + 2 <= |mem| && mem[i] == 37
    requires !HexDigit(mem[i + 1]) || !HexDigit(mem[i + 2])
    ensures Decoded(mem, i, end, form) == [37] + Decoded(mem, i + 1, end, form)
  {
  }

  /** '0' to '9', 'A' to 'F', 'a' to 'f'. */
  ghost predicate HexDigit(c: u8) {
    c in {48, 49, 50, 51, 52, 53, 54, 55, 56, 57} || c in {65, 66, 67, 68, 69, 70} || c in {97, 98, 99, 100, 101, 102}
  }

  /** A digit in either case. */
  function HexChar(v: nat, upper: bool): u8
    requires v < 16
  {
    if v < 10 then 48 + v else if upper then 55 + v else 87 + v
  }

  predicate LetterOrDigit(c: u8) {
    48 <= c <= 57 || 65 <= c <= 90 || 97 <= c <= 122
  }

  /** Form encoding: letters and digits as they are, a space as '+' in a form, the rest escaped. */
  function EncodeSymbol(c: u8, form: bool, upper: bool): bytes {
    if LetterOrDigit(c) then [c]
    else if form && c == 32 then [43]
    else [37, HexChar(c / 16, upper), HexChar(c % 16, upper)]
  }

  function FormEncode(x: bytes, form: bool, upper: bool): bytes {
    if x == [] then [] else EncodeSymbol(x[0], form, upper) + FormEncode(x[1..], form, upper)
  }

  lemma HexBack(v: nat, upper: bool)
    requires v < 16
    ensures IsHex(HexChar(v, upper)) && HexValue(HexChar(v, upper)) == v
  {
  }

  lemma SymbolBack(mem: bytes, i: nat, c: u8, form: bool, upper: bool)
    requires var e := EncodeSymbol(c, form, upper); i + 2 < |mem| && i + |e| <= |mem| && mem[i..i + |e|] == e
    ensures Symbol(mem, i, form) == c && Next(mem, i) == i + |EncodeSymbol(c, form, upper)|
  {
    var e := EncodeSymbol(c, form, upper);
    assert mem[i] == mem[i..i + |e|][0] == e[0];
    if |e| == 3 {
      assert mem[i + 1] == mem[i..i + 3][1] == e[1] && mem[i + 2] == mem[i..i + 3][2] == e[2];
      HexBack(c / 16, upper);
      HexBack(c % 16, upper);
    }
  }

  /** One symbol in front of what is decoded already. */
  lemma SymbolFirst(mem: bytes, i: nat, end: nat, c: u8, head: bytes, form: bool, upper: bool)
    requires head == EncodeSymbol(c, form, upper) && i + |head| <= end && end + 2 <= |mem| && mem[i..i + |head|] == head
    ensures Decoded(mem, i, end, form) == [c] + Decoded(mem, i + |head|, end, form)
  {
    SymbolBack(mem, i, c, form, upper);
  }

  lemma SlicesOf(mem: bytes, i: nat, end: nat, head: bytes, tail: bytes)
    requires i <= end <= |mem| && mem[i..end] == head + tail
    ensures i + |head| <= end && mem[i..i + |head|] == head && mem[i + |head|..end] == tail
  {
    var e := mem[i..end];
    assert |e| == end - i == |head| + |tail|;
    assert e[..|head|] == mem[i..i + |head|] && e[|head|..] == mem[i + |head|..end];
    assert (head + tail)[..|head|] == head && (head + tail)[|head|..] == tail;
  }

  /** Decoding undoes form encoding, with hex digits of either case, wherever the encoding lies. */
  lemma {:induction false} FormRoundTrip(mem: bytes, i: nat, end: nat, x: bytes, form: bool, upper: bool)
    requires i <= end && end + 2 <= |mem| && mem[i..end] == FormEncode(x, form, upper)
    ensures Decoded(mem, i, end, form) == x
    decreases |x|
  {
    if x != [] {
      var head, tail := EncodeSymbol(x[0], form, upper), FormEncode(x[1..], form, upper);
      SlicesOf(mem, i, end, head, tail);
      FormRoundTrip(mem, i + |head|, end, x[1..], form, upper);
      FormStep(mem, i, end, x, head, form, upper);
    }
  }

  lemma FormStep(mem: bytes, i: nat, end: nat, x: bytes, head: bytes, form: bool, upper: bool)
    requires x != [] && head == EncodeSymbol(x[0], form, upper) && i + |head| <= end && end + 2 <= |mem|
    requires mem[i..i + |head|] == head && Decoded(mem, i + |head|, end, form) == x[1..]
    ensures Decoded(mem, i, end, form) == x
  {
    SymbolFirst(mem, i, end, x[0], head, form, upper);
    assert [x[0]] + x[1..] == x;
  }

  function PercentEncode(x: bytes): bytes {
    if x == [] then [] else [PERCENT, HexChar(x[0] / 16, false), HexChar(x[0] % 16, false)] + PercentEncode(x[1..])
  }

  /** ... and percent-encoding of every byte. */
  lemma {:induction false} PercentRoundTrip(pre: bytes, x: bytes, post: bytes, form: bool)
    requires |post| >= 2
    ensures var e := PercentEncode(x);
            Decoded(pre + e + post, |pre|, |pre| + |e|, form) == x
    decreases |x|
  {
    var e := PercentEncode(x);
    var mem := pre + e + post;
    if x != [] {
      var head := [PERCENT, HexChar(x[0] / 16, false), HexChar(x[0] % 16, false)];
      var tail := PercentEncode(x[1..]);
      assert mem == (pre + head) + tail + post;
      PercentRoundTrip(pre + head, x[1..], post, form);
      assert mem[|pre|] == PERCENT && mem[|pre| + 1] == head[1] && mem[|pre| + 2] == head[2];
      assert Symbol(mem, |pre|, form) == x[0] && Next(mem, |pre|) == |pre| + 3;
      assert [x[0]] + x[1..] == x;
    }
  }

  // ------------------------------------------------------------------ segments

  /** The position of the first '&' from i on, or the length. */
  function Cut(b: bytes, i: nat): (n: nat)
    requires i <= |b|
    ensures i <= n <= |b| && (n < |b| ==> b[n] == AMP)
    ensures forall k :: i <= k < n ==> b[k] != AMP
    decreases |b| - i
  {
    if i == |b| || b[i] == AMP then i else Cut(b, i + 1)
  }

  lemma CutIs(b: bytes, i: nat, n: nat)
    requires i <= n <= |b| && (n < |b| ==> b[n] == AMP) && forall k :: i <= k < n ==> b[k] != AMP
    ensures Cut(b, i) == n
  {
  }

  /** The '&'-separated segments of b. */
  function Split(b: bytes): seq<bytes> {
    SplitFrom(b, 0)
  }

  function SplitFrom(b: bytes, i: nat): seq<bytes>
    requires i <= |b|
    decreases |b| - i
  {
    var n := Cut(b, i);
    if n == |b| then [b[i..]] else [b[i..n]] + SplitFrom(b, n + 1)
  }

  /** The segment binds the name: what precedes its first '=' is the name. */
  ghost predicate Binds(segment: bytes, name: bytes) {
    exists i :: 0 <= i < |segment| && segment[i] == EQ && EQ !in segment[..i] && segment[..i] == name
  }

  datatype Found = Nothing | Value(value: bytes)

  /** The value of the first segment that binds the name. */
  ghost function Lookup(segments: seq<bytes>, name: bytes): Found {
    if segments == [] then Nothing
    else if Binds(segments[0], name) then Value(segments[0][|name| + 1..])
    else Lookup(segments[1..], name)
  }

  lemma BindsIsPrefix(segment: bytes, name: bytes)
    requires EQ !in name
    ensures Binds(segment, name) <==> |name| < |segment| && segment[|name|] == EQ && segment[..|name|] == name
  {
  }

  /** The test of get_variable at position i. */
  predicate MatchesAt(b: bytes, i: nat, name: bytes) {
    i + |name| < |b| && b[i + |name|] == EQ && b[i..i + |name|] == name
  }

  /** The search from one segment to the next. */
  function SearchFrom(b: bytes, i: nat, name: bytes): Found
    requires i <= |b|
    decreases |b| - i
  {
    if MatchesAt(b, i, name) then Value(b[i + |name| + 1..Cut(b, i + |name| + 1)])
    else if Cut(b, i) == |b| then Nothing
    else SearchFrom(b, Cut(b, i) + 1, name)
  }

  /** A name without '&' that matches at a segment's start lies inside the segment. */
  lemma MatchInSegment(b: bytes, i: nat, name: bytes)
    requires i <= |b| && AMP !in name && MatchesAt(b, i, name)
    ensures i + |name| + 1 <= Cut(b, i) && Cut(b, i) == Cut(b, i + |name| + 1)
  {
    var n := Cut(b, i + |name| + 1);
    forall k | i <= k < n
      ensures b[k] != AMP
    {
      if k < i + |name| {
        assert b[k] == b[i..i + |name|][k - i];
        assert b[k] in name;
      }
    }
    CutIs(b, i, n);
  }

  lemma MatchIsBinding(b: bytes, i: nat, name: bytes)
    requires i <= |b| && EQ !in name && AMP !in name
    ensures MatchesAt(b, i, name) <==> Binds(b[i..Cut(b, i)], name)
    ensures MatchesAt(b, i, name) ==> b[i..Cut(b, i)][|name| + 1..] == b[i + |name| + 1..Cut(b, i + |name| + 1)]
  {
    var segment := b[i..Cut(b, i)];
    BindsIsPrefix(segment, name);
    if MatchesAt(b, i, name) {
      MatchInSegment(b, i, name);
      assert segment[..|name|] == b[i..i + |name|];
    } else if |name| < |segment| {
      assert segment[..|name|] == b[i..i + |name|];
    }
  }

  /** Searching segment by segment is splitting and then searching. */
  lemma {:induction false} SearchIsLookup(b: bytes, i: nat, name: bytes)
    requires i <= |b| && EQ !in name && AMP !in name
    ensures SearchFrom(b, i, name) == Lookup(SplitFrom(b, i), name)
    decreases |b| - i
  {
    var n := Cut(b, i);
    MatchIsBinding(b, i, name);
    if n == |b| {
      assert b[i..] == b[i..n];
      assert Lookup([b[i..]][1..], name) == Nothing;
    } else {
      SearchIsLookup(b, n + 1, name);
      assert SplitFrom(b, i)[1..] == SplitFrom(b, n + 1);
    }
  }

  /** Nothing is found in fewer bytes than a name and '='. */
  lemma {:induction false} NoRoom(b: bytes, i: nat, name: bytes)
    requires i <= |b| && |b| - i <= |name|
    ensures SearchFrom(b, i, name) == Nothing
    decreases |b| - i
  {
    if Cut(b, i) < |b| {
      NoRoom(b, Cut(b, i) + 1, name);
    }
  }

  /** The search has passed `start`; the segment it is in begins at `segment`. */
  ghost predicate Searched(b: bytes, name: bytes, segment: nat, start: nat) {
    && segment <= start <= |b|
    && SearchFrom(b, 0, name) == SearchFrom(b, segment, name)
    && (start == 0 || b[start - 1] == AMP <==> start == segment)
    && (start > segment ==> !MatchesAt(b, segment, name))
    && start <= Cut(b, segment)
  }

  lemma SearchStep(b: bytes, name: bytes, segment: nat, start: nat) returns (now: nat)
    requires Searched(b, name, segment, start) && start < |b|
    requires start == segment ==> !MatchesAt(b, segment, name)
    ensures Searched(b, name, now, start + 1)
  {
    now := if start == Cut(b, segment) then start + 1 else segment;
  }

  lemma Exhausted(b: bytes, name: bytes, segment: nat, start: nat)
    requires Searched(b, name, segment, start) && start + |name| >= |b|
    ensures SearchFrom(b, 0, name) == Nothing
  {
    if start == segment {
      NoRoom(b, segment, name);
    } else if Cut(b, segment) < |b| {
      NoRoom(b, Cut(b, segment) + 1, name);
    }
  }

  /** memchr for the end of a value. */
  method FindEnd(b: bytes, i: nat) returns (n: nat)
    requires i <= |b|
    ensures n == Cut(b, i)
  {
    n := i;
    while n < |b| && b[n] != AMP
      invariant i <= n <= |b|
      invariant forall k :: i <= k < n ==> b[k] != AMP
    {
      n := n + 1;
    }
    CutIs(b, i, n);
  }

  /** b[start..end] is the value of the first segment that binds the name, in its own place. */
  ghost predicate IsValueOf(b: bytes, name: bytes, start: nat, end: nat) {
    && |name| < start <= end <= |b|
    && IsFirstBinding(b, name, start - |name| - 1) && end == Cut(b, start - |name| - 1)
  }

  predicate SegmentStart(b: bytes, i: nat) {
    i <= |b| && (i == 0 || b[i - 1] == AMP)
  }

  /** The segment that starts at i binds the name, and no earlier one does. */
  ghost predicate IsFirstBinding(b: bytes, name: bytes, i: nat) {
    && SegmentStart(b, i) && Binds(b[i..Cut(b, i)], name)
    && forall j :: 0 <= j < i && SegmentStart(b, j) ==> !Binds(b[j..Cut(b, j)], name)
  }

  ghost predicate NoMatchBefore(b: bytes, name: bytes, i: nat) {
    forall j :: 0 <= j < i && SegmentStart(b, j) ==> !MatchesAt(b, j, name)
  }

  lemma FirstMatch(b: bytes, name: bytes, i: nat)
    requires EQ !in name && AMP !in name && SegmentStart(b, i) && MatchesAt(b, i, name) && NoMatchBefore(b, name, i)
    ensures IsValueOf(b, name, i + |name| + 1, Cut(b, i + |name| + 1))
  {
    MatchInSegment(b, i, name);
    MatchIsBinding(b, i, name);
    forall j | 0 <= j < i && SegmentStart(b, j)
      ensures !Binds(b[j..Cut(b, j)], name)
    {
      MatchIsBinding(b, j, name);
    }
  }

  /** The search at a match. */
  lemma FoundHere(b: bytes, name: bytes, segment: nat, start: nat)
    requires EQ !in name && AMP !in name && Searched(b, name, segment, start) && NoMatchBefore(b, name, start)
    requires SegmentStart(b, start) && MatchesAt(b, start, name)
    ensures var from := start + |name| + 1;
            var to := Cut(b, from);
            IsValueOf(b, name, from, to) && Lookup(Split(b), name) == Value(b[from..to])
  {
    FirstMatch(b, name, start);
    LookupHere(b, name, segment, start);
  }

  lemma LookupHere(b: bytes, name: bytes, segment: nat, start: nat)
    requires EQ !in name && AMP !in name && Searched(b, name, segment, start)
    requires SegmentStart(b, start) && MatchesAt(b, start, name)
    ensures Lookup(Split(b), name) == Value(b[start + |name| + 1..Cut(b, start + |name| + 1)])
  {
    assert start == segment;
    SearchIsLookup(b, 0, name);
  }

  /** One step without a match. */
  lemma NotHere(b: bytes, name: bytes, segment: nat, start: nat) returns (now: nat)
    requires Searched(b, name, segment, start) && NoMatchBefore(b, name, start) && start < |b|
    requires SegmentStart(b, start) ==> !MatchesAt(b, start, name)
    ensures Searched(b, name, now, start + 1) && NoMatchBefore(b, name, start + 1)
  {
    now := SearchStep(b, name, segment, start);
  }

  /** The search loop of get_variable: where the value of the name begins and ends. */
  method Find(name: bytes, b: bytes) returns (found: bool, start: nat, end: nat)
    requires EQ !in name && AMP !in name
    ensures found ==> IsValueOf(b, name, start, end) && Lookup(Split(b), name) == Value(b[start..end])
    ensures !found ==> Lookup(Split(b), name) == Nothing
  {
    start, end := 0, |b|;
    ghost var segment := 0;
    while start + |name| < |b|
      invariant Searched(b, name, segment, start) && NoMatchBefore(b, name, start)
    {
      if (start == 0 || b[start - 1] == AMP) && b[start + |name|] == EQ && b[start..start + |name|] == name {
        FoundHere(b, name, segment, start);
        start := start + |name| + 1;
        end := FindEnd(b, start);
        return true, start, end;
      }
      segment := NotHere(b, name, segment, start);
      start := start + 1;
    }
    Exhausted(b, name, segment, start);
    SearchIsLookup(b, 0, name);
    found := false;
  }

  lemma SliceOfPrefix(mem: bytes, n: nat, start: nat, end: nat)
    requires start <= end <= n <= |mem|
    ensures mem[..n][start..end] == mem[start..end]
  {
  }

  /** get_variable: the decoded value of the first segment bound to the name, cut to the output
      buffer; an empty output and 0 when there is none. */
  method GetVariable(name: bytes, mem: bytes, buflen: nat, room: nat, form: bool)
      returns (out: bytes, complete: bool, ghost start: nat, ghost end: nat)
    requires EQ !in name && AMP !in name && buflen + 2 <= |mem| && room >= 1
    ensures Lookup(Split(mem[..buflen]), name) == Nothing ==> out == [] && !complete
    ensures Lookup(Split(mem[..buflen]), name).Value? ==>
              && IsValueOf(mem[..buflen], name, start, end)
              && mem[start..end] == Lookup(Split(mem[..buflen]), name).value
              && out == Take(Decoded(mem, start, end, form), room - 1)
              && (complete <==> |Decoded(mem, start, end, form)| <= room - 1 && Landing(mem, start, end) == end)
  {
    var buf := mem[..buflen];
    var found, from, to := Find(name, buf);
    start, end := from, to;
    if !found {
      return [], false, start, end;
    }
    out, complete := Decode(mem, from, to, room, form);
    SliceOfPrefix(mem, buflen, from, to);
  }
}
