/** Conversion between UTF-16 and UTF-8 (CLR_RT_UnicodeHelper).  Units are 16-bit numbers and bytes 8-bit
    numbers; shifts and masks of the source are written as division and remainder. */
module Unicode {

  const HIGH_SURROGATE_START := 0xD800
  const HIGH_SURROGATE_END := 0xDBFF
  const LOW_SURROGATE_START := 0xDC00
  const LOW_SURROGATE_END := 0xDFFF
  const SURROGATE_HALFBASE := 0x10000
  const SURROGATE_HALF := 0x400

  predicate IsHigh(u: int) { HIGH_SURROGATE_START <= u <= HIGH_SURROGATE_END }
  predicate IsLow(u: int) { LOW_SURROGATE_START <= u <= LOW_SURROGATE_END }

  /** Units of a string, up to its terminating zero. */
  ghost predicate Units(s: seq<int>) {
    forall i :: 0 <= i < |s| ==> 0 < s[i] <= 0xFFFF
  }

  /** Every high surrogate is followed by some unit, so the conversion does not run past the end. */
  predicate Readable(s: seq<int>) {
    s == [] || if IsHigh(s[0]) then |s| >= 2 && Readable(s[2..]) else Readable(s[1..])
  }

  /** Every high surrogate is followed by a low one, and low ones occur only there. */
  predicate WellFormed(s: seq<int>): (r: bool)
    ensures r ==> Readable(s)
  {
    if s == [] then true
    else if IsHigh(s[0]) then |s| >= 2 && IsLow(s[1]) && WellFormed(s[2..])
    else !IsLow(s[0]) && WellFormed(s[1..])
  }

  /** How many units the next character takes. */
  function Width(s: seq<int>): (w: int)
    requires s != [] && Readable(s)
    ensures 1 <= w <= 2 && w <= |s| && Readable(s[w..]) && (WellFormed(s) ==> WellFormed(s[w..]))
  {
    if IsHigh(s[0]) then 2 else 1
  }

  // ---------- UTF-16 to UTF-8 ----------

  /** A unit after a high surrogate is taken for a low one, whatever it is. */
  function EncodeFirst(s: seq<int>): (b: seq<int>)
    requires s != [] && Readable(s)
    ensures 1 <= |b| <= 4
  {
    var ch := s[0];
    if ch < 0x80 then [ch]
    else if ch < 0x800 then [0xC0 + ch / 64 % 32, 0x80 + ch % 64]
    else if IsHigh(ch) then
      var c := SURROGATE_HALFBASE + (ch - HIGH_SURROGATE_START) * SURROGATE_HALF + (s[1] - LOW_SURROGATE_START);
      [0xF0 + c / 262144 % 8, 0x80 + c / 4096 % 64, 0x80 + c / 64 % 64, 0x80 + c % 64]
    else [0xE0 + ch / 4096 % 16, 0x80 + ch / 64 % 64, 0x80 + ch % 64]
  }

  /** The bytes of as many characters as the budget allows; a surrogate pair costs nothing. */
  function Encode(s: seq<int>, max: int): seq<int>
    requires Readable(s)
    decreases |s|
  {
    if s == [] || max <= 0 then []
    else EncodeFirst(s) + Encode(s[Width(s)..], if IsHigh(s[0]) then max else max - 1)
  }

  lemma Regroup(a: seq<int>, b: seq<int>, c: seq<int>)
    ensures a + (b + c) == (a + b) + c
  {
  }

  /** A conversion into limited room: what it writes, the input it leaves, whether it has run past the
      terminating zero, and whether it succeeds.  A negative room stands for moving without writing. */
  datatype ToBytes = ToBytes(out: seq<int>, rest: seq<int>, past: bool, ok: bool)

  /** A character that does not fit is left out, but is taken from the input. */
  function ConvertTo(s: seq<int>, max: int, room: int): ToBytes
    requires Readable(s)
    decreases |s|
  {
    if max <= 0 then ToBytes([], s, false, room != 0)
    else if s == [] then ToBytes([], [], true, room != 0)
    else
      var b, t := EncodeFirst(s), s[Width(s)..];
      if 0 <= room < |b| then ToBytes([], t, false, false)
      else
        var r := ConvertTo(t, if IsHigh(s[0]) then max else max - 1, if room < 0 then room else room - |b|);
        r.(out := b + r.out)
  }

  /** The conversion succeeds exactly if there is room for all bytes and the terminating zero, and then
      it has written all of them. */
  lemma {:induction false} ConvertToIff(s: seq<int>, max: int, room: int)
    requires Readable(s)
    ensures ConvertTo(s, max, room).ok <==> room < 0 || |Encode(s, max)| < room
    ensures ConvertTo(s, max, room).ok ==> ConvertTo(s, max, room).out == Encode(s, max)
    ensures ConvertTo(s, max, room).out <= Encode(s, max)
    decreases |s|
  {
    if max > 0 && s != [] {
      var b := EncodeFirst(s);
      var max' := if IsHigh(s[0]) then max else max - 1;
      if !(0 <= room < |b|) {
        var room' := if room < 0 then room else room - |b|;
        ConvertToIff(s[Width(s)..], max', room');
        assert Encode(s, max) == b + Encode(s[Width(s)..], max');
        assert ConvertTo(s, max, room).out == b + ConvertTo(s[Width(s)..], max', room').out;
      }
    }
  }

  /** A call that succeeds before the end of the string leaves the pointer where the next call goes on. */
  lemma {:induction false} ConvertToGoesOn(s: seq<int>, max: int, room: int, more: int)
    requires Readable(s) && 0 <= max && 0 <= more
    requires var r := ConvertTo(s, max, room); r.ok && !r.past
    ensures var r := ConvertTo(s, max, room); Readable(r.rest) && Encode(s, max + more) == r.out + Encode(r.rest, more)
    decreases |s|
  {
    if max > 0 && s != [] {
      var b, t, max', room' := ConvertToOne(s, max, room, more);
      ConvertToGoesOn(t, max', room', more);
      var r := ConvertTo(t, max', room');
      Combine(Encode(s, max + more), b, Encode(t, max' + more), r.out, Encode(r.rest, more));
    }
  }

  /** The conversion of one character. */
  lemma ConvertToOne(s: seq<int>, max: int, room: int, more: int) returns (b: seq<int>, t: seq<int>, max': int, room': int)
    requires Readable(s) && s != [] && 0 < max && 0 <= more && ConvertTo(s, max, room).ok
    ensures Readable(t) && |t| < |s| && 0 <= max'
    ensures ConvertTo(s, max, room) == Before(b, ConvertTo(t, max', room')) && Encode(s, max + more) == b + Encode(t, max' + more)
  {
    b, t, max' := EncodeFirst(s), s[Width(s)..], if IsHigh(s[0]) then max else max - 1;
    room' := if room < 0 then room else room - |b|;
    EncodeStep(s, max, more);
  }

  /** What was written before comes first. */
  function Before(done: seq<int>, r: ToBytes): ToBytes { r.(out := done + r.out) }

  lemma Combine(e: seq<int>, b: seq<int>, e': seq<int>, out: seq<int>, tail: seq<int>)
    requires e == b + e' && e' == out + tail
    ensures e == (b + out) + tail
  {
  }

  lemma EncodeStep(s: seq<int>, max: int, more: int)
    requires Readable(s) && s != [] && 0 < max && 0 <= more
    ensures Encode(s, max + more) == EncodeFirst(s) + Encode(s[Width(s)..], (if IsHigh(s[0]) then max else max - 1) + more)
  {
    var rest := (if IsHigh(s[0]) then max else max - 1) + more;
    assert rest == if IsHigh(s[0]) then max + more else max + more - 1;
  }

  /** What CountNumberOfBytes counts: every character costs one of the budget; -1 is no limit. */
  function CountBytes(s: seq<int>, max: int): int
    decreases |s|
  {
    if s == [] || max == 0 then 0
    else if s[0] < 0x80 then Plus(1, CountBytes(s[1..], max - 1))
    else if s[0] < 0x800 then Plus(2, CountBytes(s[1..], max - 1))
    else if IsLow(s[0]) then -1
    else if IsHigh(s[0]) then
      if |s| >= 2 && IsLow(s[1]) then Plus(4, CountBytes(s[2..], max - 1)) else -1
    else Plus(3, CountBytes(s[1..], max - 1))
  }

  function Plus(n: int, m: int): int { if m < 0 then -1 else n + m }

  /** Without a limit, the count fails exactly on strings that are not well-formed. */
  lemma {:induction false} CountFailsIff(s: seq<int>, max: int)
    requires Units(s) && max < 0
    ensures CountBytes(s, max) >= -1
    ensures CountBytes(s, max) == -1 <==> !WellFormed(s)
    decreases |s|
  {
    if s != [] {
      CountFailsIff(s[1..], max - 1);
      if |s| >= 2 { CountFailsIff(s[2..], max - 1); }
    }
  }

  /** The number of characters. */
  function Characters(s: seq<int>): nat
    requires WellFormed(s)
    decreases |s|
  {
    if s == [] then 0 else 1 + Characters(s[Width(s)..])
  }

  /** One more character counts as many bytes as it is encoded in. */
  lemma {:induction false} CountStep(s: seq<int>, max: int)
    requires WellFormed(s) && Units(s)
    ensures 0 <= CountBytes(s, max)
    ensures s != [] && max != 0 ==> CountBytes(s, max) == |EncodeFirst(s)| + CountBytes(s[Width(s)..], max - 1)
    decreases |s|
  {
    if s != [] { CountStep(s[Width(s)..], max - 1); }
  }

  lemma {:induction false} CountedExactly(s: seq<int>)
    requires WellFormed(s) && Units(s)
    ensures CountBytes(s, -1) == |Encode(s, |s|)|
  {
    CountAll(s, -1, |s|);
  }

  lemma {:induction false} CountAll(s: seq<int>, max: int, budget: int)
    requires WellFormed(s) && Units(s) && |s| <= budget && (max < 0 || Characters(s) <= max)
    ensures CountBytes(s, max) == |Encode(s, budget)|
    decreases |s|
  {
    if s != [] {
      CountAll(s[Width(s)..], max - 1, if IsHigh(s[0]) then budget else budget - 1);
    }
  }

  /** With a limit, the count is what the conversion needs exactly if the whole string fits into the limit or
      there is no surrogate pair among the first characters: pairs are counted but not charged. */
  lemma {:induction false} LimitedCount(s: seq<int>, max: nat)
    requires WellFormed(s) && Units(s)
    ensures CountBytes(s, max) <= |Encode(s, max)|
    ensures CountBytes(s, max) == |Encode(s, max)| <==> Characters(s) <= max || NoPairs(s[..Min(max, |s|)])
    decreases |s|
  {
    if s != [] && max > 0 {
      var t := s[Width(s)..];
      CountStep(s, max);
      if IsHigh(s[0]) {
        PairCharged(t, max);
        assert !NoPairs(s[..Min(max, |s|)]) by { assert s[..Min(max, |s|)][0] == s[0]; }
      } else {
        LimitedCount(t, max - 1);
        NoPairsTail(s, Min(max, |s|));
        assert s[..Min(max, |s|)][1..] == t[..Min(max - 1, |t|)];
      }
    } else if s != [] {
      assert Characters(s) > 0;
    }
  }

  /** With a limit of one character, a pair and the letter behind it are both converted, but only the pair is
      counted. */
  lemma PairNotCharged()
    ensures var s := [0xD800, 0xDC00, 0x41]; WellFormed(s) && CountBytes(s, 1) == 4 && |Encode(s, 1)| == 5
  {
    var s := [0xD800, 0xDC00, 0x41];
    assert s[2..] == [0x41] && [0x41][1..] == [];
    assert |Encode(s, 1)| == 4 + |Encode([0x41], 1)|;
  }

  function Min(a: int, b: int): int { if a < b then a else b }

  predicate NoPairs(s: seq<int>) {
    forall i :: 0 <= i < |s| ==> !IsHigh(s[i])
  }

  lemma NoPairsTail(s: seq<int>, n: int)
    requires 0 < n <= |s| && !IsHigh(s[0])
    ensures NoPairs(s[..n]) <==> NoPairs(s[..n][1..])
  {
    var a, b := s[..n], s[..n][1..];
    assert forall i :: 0 < i < |a| ==> a[i] == b[i - 1];
    assert forall i :: 0 <= i < |b| ==> b[i] == a[i + 1];
  }

  /** With more budget than the count, the conversion reaches at least as far, and further unless the
      string ends. */
  lemma {:induction false} PairCharged(s: seq<int>, max: int)
    requires WellFormed(s) && Units(s) && 1 <= max
    ensures CountBytes(s, max - 1) <= |Encode(s, max)|
    ensures CountBytes(s, max - 1) == |Encode(s, max)| <==> Characters(s) <= max - 1
    ensures 0 <= CountBytes(s, max - 1)
    decreases |s|
  {
    if s != [] {
      var t := s[Width(s)..];
      CountStep(s, max - 1);
      if max > 1 {
        PairCharged(t, max - 1);
        if IsHigh(s[0]) {
          MoreBudget(t, max - 1, max);
          if Characters(t) <= max - 2 { FullWhenFits(t, max); }
        }
      }
    }
  }

  lemma {:induction false} MoreBudget(s: seq<int>, a: int, b: int)
    requires WellFormed(s) && a <= b
    ensures |Encode(s, a)| <= |Encode(s, b)|
    decreases |s|
  {
    if s != [] && a > 0 {
      MoreBudget(s[Width(s)..], if IsHigh(s[0]) then a else a - 1, if IsHigh(s[0]) then b else b - 1);
    }
  }

  lemma {:induction false} FullWhenFits(s: seq<int>, max: int)
    requires WellFormed(s) && Characters(s) <= max - 2
    ensures Encode(s, max) == Encode(s, max - 1)
    decreases |s|
  {
    if s != [] {
      if IsHigh(s[0]) {
        FullWhenFits(s[Width(s)..], max);
      } else {
        FullWhenFits(s[Width(s)..], max - 1);
      }
    }
  }

  // ---------- UTF-8 to UTF-16 ----------

  predicate Bytes(b: seq<int>) {
    forall i :: 0 <= i < |b| ==> 0 < b[i] <= 0xFF
  }

  /** UTF8_BAD_LOWPART, negated. */
  predicate LowPart(ch: int) { 0x80 <= ch <= 0xBF }

  /** The length that the first byte of a character announces, or 0 if it cannot be a first byte. */
  function LeadLength(ch: int): int {
    if ch < 0x80 then 1 else if ch < 0xC0 then 0 else if ch < 0xE0 then 2 else if ch < 0xF0 then 3 else 4
  }

  /** Up to the first byte that stops the conversion, every first byte is followed by as many bytes as it
      announces, so the conversion does not run past the end. */
  predicate ReadableBytes(b: seq<int>)
    decreases |b|
  {
    b == [] || BadLead(b[0]) || LeadLength(b[0]) == 0 || (LeadLength(b[0]) <= |b| && ReadableBytes(b[LeadLength(b[0])..]))
  }

  /** Every first byte is followed by as many continuation bytes as it announces. */
  predicate Structured(b: seq<int>): (r: bool)
    ensures r ==> ReadableBytes(b)
    decreases |b|
  {
    b == [] ||
    (var n := LeadLength(b[0]);
      1 <= n <= |b| && (forall k :: 1 <= k < n ==> LowPart(b[k])) && Structured(b[n..]))
  }

  /** First bytes that the conversion refuses: overlong forms and code points beyond the last plane. */
  predicate BadLead(ch: int) { ch == 0xC0 || ch == 0xC1 || 0xF5 <= ch }

  function DecodeFirst(b: seq<int>): (u: seq<int>)
    requires b != [] && 1 <= LeadLength(b[0]) <= |b|
    ensures |u| == if LeadLength(b[0]) == 4 then 2 else 1
  {
    match LeadLength(b[0])
    case 1 => [b[0]]
    case 2 => [b[0] % 32 * 64 + b[1] % 64]
    case 3 => [(b[0] % 16 * 64 + b[1] % 64) * 64 + b[2] % 64]
    case _ =>
      var c := ((b[0] % 8 * 64 + b[1] % 64) * 64 + b[2] % 64) * 64 + b[3] % 64;
      [c / SURROGATE_HALF + HIGH_SURROGATE_START, c % SURROGATE_HALF + LOW_SURROGATE_START]
  }

  predicate Decodable(b: seq<int>): (r: bool)
    ensures r ==> ReadableBytes(b)
    decreases |b|
  {
    b == [] || (var n := LeadLength(b[0]); !BadLead(b[0]) && 1 <= n <= |b| && Decodable(b[n..]))
  }

  function Decode(b: seq<int>): seq<int>
    requires Decodable(b)
    decreases |b|
  {
    if b == [] then [] else DecodeFirst(b) + Decode(b[LeadLength(b[0])..])
  }

  /** What CountNumberOfCharacters counts: the units that each character takes. */
  function CountCharacters(b: seq<int>, max: int): int
    decreases |b|
  {
    if b == [] || max == 0 then 0
    else
      var n := LeadLength(b[0]);
      if n == 0 || |b| < n || exists k :: 1 <= k < n && !LowPart(b[k]) then -1
      else Plus(if n == 4 then 2 else 1, CountCharacters(b[n..], max - 1))
  }

  /** Without a limit, the count fails exactly on bytes that are not structured, and on bytes that can be
      decoded it is the number of units. */
  lemma {:induction false} CharactersCounted(b: seq<int>, max: int)
    requires max < 0
    ensures CountCharacters(b, max) == -1 <==> !Structured(b)
    ensures CountCharacters(b, max) >= -1
    ensures Structured(b) && Decodable(b) ==> CountCharacters(b, max) == |Decode(b)|
    ensures Structured(b) ==> |b| <= CountCharacters(b, max) * 3
    decreases |b|
  {
    if b != [] && 1 <= LeadLength(b[0]) <= |b| {
      CharactersCounted(b[LeadLength(b[0])..], max - 1);
    }
  }

  /** The bytes of a string that are not continuation bytes, and those that announce four bytes. */
  function Leads(b: seq<int>): nat {
    if b == [] then 0 else (if 0x80 <= b[0] <= 0xBF then 0 else 1) + Leads(b[1..])
  }

  function WideLeads(b: seq<int>): nat {
    if b == [] then 0 else (if b[0] >= 0xF0 then 1 else 0) + WideLeads(b[1..])
  }

  /** The first n bytes are the first max characters, or all if there are fewer. */
  ghost predicate FirstCharacters(b: seq<int>, max: int, n: int) {
    0 <= n <= |b| && Structured(b[..n]) && (Leads(b[..n]) == max || (n == |b| && (max < 0 || Leads(b) < max)))
  }

  lemma {:induction false} LeadsSplit(a: seq<int>, b: seq<int>)
    ensures Leads(a + b) == Leads(a) + Leads(b) && WideLeads(a + b) == WideLeads(a) + WideLeads(b)
  {
    if a == [] {
      assert a + b == b;
    } else {
      LeadsSplit(a[1..], b);
      assert (a + b)[1..] == a[1..] + b;
    }
  }

  lemma {:induction false} NoLeads(b: seq<int>)
    requires forall k :: 0 <= k < |b| ==> LowPart(b[k])
    ensures Leads(b) == 0 && WideLeads(b) == 0
  {
    if b != [] { NoLeads(b[1..]); }
  }

  lemma PrefixSplit(b: seq<int>, w: int, n: int)
    requires 0 <= w <= n <= |b|
    ensures b[..n] == b[..w] + b[w..][..n - w] && b[..n][w..] == b[w..][..n - w]
  {
  }

  lemma OneLead(b: seq<int>)
    requires b != [] && LeadLength(b[0]) >= 1 && forall k :: 1 <= k < |b| ==> LowPart(b[k])
    ensures Leads(b) == 1 && WideLeads(b) == if LeadLength(b[0]) == 4 then 1 else 0
  {
    var rest := b[1..];
    assert forall k :: 0 <= k < |rest| ==> rest[k] == b[k + 1];
    NoLeads(rest);
  }

  /** One character has one first byte. */
  lemma LeadsOfFirst(b: seq<int>, n: int)
    requires b != [] && LeadLength(b[0]) >= 1 && LeadLength(b[0]) <= n <= |b|
    requires forall k :: 1 <= k < LeadLength(b[0]) ==> LowPart(b[k])
    ensures var w := LeadLength(b[0]);
      && b[..n] != [] && b[..n][w..] == b[w..][..n - w]
      && Leads(b[..n]) == 1 + Leads(b[w..][..n - w])
      && WideLeads(b[..n]) == (if w == 4 then 1 else 0) + WideLeads(b[w..][..n - w])
  {
    var w := LeadLength(b[0]);
    OneLead(b[..w]);
    LeadsSplit(b[..w], b[w..][..n - w]);
    PrefixSplit(b, w, n);
  }

  /** The first characters of a string that is not empty are one character and the first ones of the rest. */
  lemma FirstCharactersStep(b: seq<int>, max: int, n: int)
    requires b != [] && max != 0
    ensures var w := LeadLength(b[0]);
      FirstCharacters(b, max, n) <==>
        1 <= w <= n <= |b| && (forall k :: 1 <= k < w ==> LowPart(b[k])) && FirstCharacters(b[w..], max - 1, n - w)
  {
    var w := LeadLength(b[0]);
    if 1 <= w <= n <= |b| && (forall k :: 1 <= k < w ==> LowPart(b[k])) {
      LeadsOfFirst(b, n);
      LeadsOfFirst(b, |b|);
      assert b[..|b|] == b && b[w..][..|b| - w] == b[w..];
      assert forall k :: 1 <= k < w ==> b[..n][k] == b[k];
    } else if FirstCharacters(b, max, n) && n > 0 {
      assert b[..n][0] == b[0];
      assert forall k :: 1 <= k < w <= n ==> b[..n][k] == b[k];
    }
  }

  /** With a limit, the count is that of the units of the first characters: one for each first byte, and one more
      for those that announce four bytes.  It fails exactly if the first characters are not complete.  Without a
      limit the same holds of all characters. */
  lemma {:induction false} CountedUpTo(b: seq<int>, max: int)
    ensures CountCharacters(b, max) >= -1
    ensures CountCharacters(b, max) >= 0 <==> exists n :: FirstCharacters(b, max, n)
    ensures forall n :: FirstCharacters(b, max, n) ==> CountCharacters(b, max) == Leads(b[..n]) + WideLeads(b[..n])
    decreases |b|
  {
    if b == [] {
      assert FirstCharacters(b, max, 0);
    } else if max == 0 {
      assert FirstCharacters(b, max, 0);
      forall n | FirstCharacters(b, max, n) ensures n == 0 {
        if n > 0 { LeadsOfFirst(b[..n], n); }
      }
    } else {
      UpToStep(b, max);
    }
  }

  lemma {:induction false} UpToStep(b: seq<int>, max: int)
    requires b != [] && max != 0
    ensures CountCharacters(b, max) >= -1
    ensures CountCharacters(b, max) >= 0 <==> exists n :: FirstCharacters(b, max, n)
    ensures forall n :: FirstCharacters(b, max, n) ==> CountCharacters(b, max) == Leads(b[..n]) + WideLeads(b[..n])
    decreases |b|, 0
  {
    var w := LeadLength(b[0]);
    forall n
      ensures FirstCharacters(b, max, n) <==>
        1 <= w <= n <= |b| && (forall k :: 1 <= k < w ==> LowPart(b[k])) && FirstCharacters(b[w..], max - 1, n - w)
    {
      FirstCharactersStep(b, max, n);
    }
    if 1 <= w <= |b| && forall k :: 1 <= k < w ==> LowPart(b[k]) {
      CountedUpTo(b[w..], max - 1);
      if CountCharacters(b, max) >= 0 {
        var n' :| FirstCharacters(b[w..], max - 1, n');
        assert FirstCharacters(b, max, n' + w);
      }
      forall n | FirstCharacters(b, max, n) ensures CountCharacters(b, max) == Leads(b[..n]) + WideLeads(b[..n]) {
        LeadsOfFirst(b, n);
      }
    }
  }

  // ---------- The round trip ----------

  /** What comes back when a string is encoded and decoded again. */
  function RoundTripped(s: seq<int>): seq<int>
    requires WellFormed(s)
    decreases |s|
  {
    if s == [] then []
    else (if IsHigh(s[0]) then [s[0] + 0x40, s[1]] else [s[0]]) + RoundTripped(s[Width(s)..])
  }

  /** The bits of a byte that carry the character. */
  lemma Payload(x: int)
    ensures 0x80 <= x <= 0xBF ==> x % 64 == x - 0x80
    ensures 0xC0 <= x <= 0xDF ==> x % 32 == x - 0xC0
    ensures 0xE0 <= x <= 0xEF ==> x % 16 == x - 0xE0
    ensures 0xF0 <= x <= 0xF7 ==> x % 8 == x - 0xF0
  {
  }

  /** What the bytes of a character spell, and how the code point decides how many there are (RFC 3629, section 3). */
  lemma EncodedForm(s: seq<int>)
    requires s != [] && Units(s) && WellFormed(s)
    ensures 0xD800 <= s[0] <= 0xDBFF ==> |s| >= 2 && 0xDC00 <= s[1] <= 0xDFFF
    ensures !(0xDC00 <= s[0] <= 0xDFFF)
    ensures var b, c := EncodeFirst(s), if 0xD800 <= s[0] <= 0xDBFF then 0x1_0000 + (s[0] - 0xD800) * 0x400 + (s[1] - 0xDC00) else s[0];
      if c < 0x80 then b == [c]
      else if c < 0x800 then |b| == 2 && 0xC2 <= b[0] <= 0xDF && c == (b[0] - 0xC0) * 64 + (b[1] - 0x80)
      else if c < 0x1_0000 then |b| == 3 && 0xE0 <= b[0] <= 0xEF && c == ((b[0] - 0xE0) * 64 + (b[1] - 0x80)) * 64 + (b[2] - 0x80)
      else |b| == 4 && 0xF0 <= b[0] <= 0xF4
           && c == (((b[0] - 0xF0) * 64 + (b[1] - 0x80)) * 64 + (b[2] - 0x80)) * 64 + (b[3] - 0x80)
    ensures var b := EncodeFirst(s); forall k :: 1 <= k < |b| ==> 0x80 <= b[k] <= 0xBF
  {
    var u := s[0];
    if 0xD800 <= u <= 0xDBFF {
      var c := 0x1_0000 + (u - 0xD800) * 0x400 + (s[1] - 0xDC00);
      Sixths(c);
      Digits(c);
    } else {
      Sixths(u);
      Digits(u);
    }
  }

  /** The digits of a number to the base of 64. */
  lemma Digits(c: int)
    requires 0 <= c < 0x11_0000
    ensures 0 <= c % 64 < 64 && 0 <= c / 64 % 64 < 64 && 0 <= c / 4096 % 64 < 64
    ensures c < 0x800 ==> c / 64 % 32 == c / 64
    ensures c < 0x1_0000 ==> c / 4096 % 16 == c / 4096
    ensures c / 262144 % 8 == c / 262144 <= 4
    ensures c == (c / 4096 * 64 + c / 64 % 64) * 64 + c % 64
    ensures c == ((c / 262144 * 64 + c / 4096 % 64) * 64 + c / 64 % 64) * 64 + c % 64
  {
    Sixths(c);
    assert c / 64 == c / 4096 * 64 + c / 64 % 64;
    assert c / 4096 == c / 262144 * 64 + c / 4096 % 64;
  }

  /** What a character of up to three bytes decodes to, and which first bytes are refused. */
  lemma DecodedForm(b: seq<int>)
    requires b != [] && Bytes(b) && Structured(b)
    ensures BadLead(b[0]) <==> !(b[0] <= 0x7F || 0xC2 <= b[0] <= 0xF4)
    ensures b[0] <= 0x7F ==> DecodeFirst(b) == [b[0]]
    ensures 0xC0 <= b[0] <= 0xDF ==> |b| >= 2 && 0x80 <= b[1] <= 0xBF && DecodeFirst(b) == [(b[0] - 0xC0) * 64 + (b[1] - 0x80)]
    ensures 0xE0 <= b[0] <= 0xEF ==>
      |b| >= 3 && 0x80 <= b[1] <= 0xBF && 0x80 <= b[2] <= 0xBF
      && DecodeFirst(b) == [((b[0] - 0xE0) * 64 + (b[1] - 0x80)) * 64 + (b[2] - 0x80)]
  {
    Payload(b[0]);
    if 0xC0 <= b[0] <= 0xDF {
      assert LowPart(b[1]);
      Payload(b[1]);
    } else if 0xE0 <= b[0] <= 0xEF {
      assert LowPart(b[1]) && LowPart(b[2]);
      Payload(b[1]);
      Payload(b[2]);
    }
  }

  /** A character of four bytes becomes a pair of surrogates, but without 0x10000 taken off. */
  lemma DecodedPair(b: seq<int>)
    requires b != [] && Structured(b) && 0xF0 <= b[0] <= 0xF4
    ensures |b| >= 4 && 0x80 <= b[1] <= 0xBF && 0x80 <= b[2] <= 0xBF && 0x80 <= b[3] <= 0xBF
    ensures var c := (((b[0] - 0xF0) * 64 + (b[1] - 0x80)) * 64 + (b[2] - 0x80)) * 64 + (b[3] - 0x80);
      DecodeFirst(b) == [0xD800 + c / 0x400, 0xDC00 + c % 0x400]
  {
    assert LowPart(b[1]) && LowPart(b[2]) && LowPart(b[3]);
    Payload(b[0]);
    Payload(b[1]);
    Payload(b[2]);
    Payload(b[3]);
  }

  lemma Sixths(c: int)
    requires 0 <= c
    ensures c / 4096 == c / 64 / 64 && c / 262144 == c / 64 / 64 / 64
    ensures c == c / 64 * 64 + c % 64 && 0 <= c % 64 < 64
  {
  }

  lemma OneByte(s: seq<int>)
    requires s != [] && WellFormed(s) && 0 < s[0] < 0x80
    ensures EncodedAs(s, [s[0]])
  {
  }

  /** The payload of a continuation byte. */
  lemma LowBits(c: int)
    requires 0 <= c
    ensures 0x80 <= 0x80 + c % 64 <= 0xBF && (0x80 + c % 64) % 64 == c % 64
  {
  }

  lemma TwoLead(q: int)
    requires 2 <= q < 32
    ensures q % 32 == q && (0xC0 + q) % 32 == q
  {
  }

  lemma ThreeLead(q: int)
    requires 0 <= q < 16
    ensures q % 16 == q && (0xE0 + q) % 16 == q
  {
  }

  lemma FourLead(q: int)
    requires 0 <= q < 5
    ensures q % 8 == q && (0xF0 + q) % 8 == q
  {
  }

  lemma TwoBytes(s: seq<int>)
    requires s != [] && WellFormed(s) && 0x80 <= s[0] < 0x800
    ensures EncodedAs(s, [s[0]])
  {
    var ch := s[0];
    Sixths(ch);
    TwoLead(ch / 64);
    TwoDecoded(ch / 64, ch % 64);
    assert EncodeFirst(s) == [0xC0 + ch / 64, 0x80 + ch % 64];
  }

  lemma TwoDecoded(q: int, r: int)
    requires 2 <= q < 32 && 0 <= r < 64
    ensures var b := [0xC0 + q, 0x80 + r];
      LeadLength(b[0]) == 2 && !BadLead(b[0]) && LowPart(b[1]) && DecodeFirst(b) == [q * 64 + r]
  {
    TwoLead(q);
    LowBits(r);
  }

  lemma ThreeBytes(s: seq<int>)
    requires s != [] && WellFormed(s) && 0x800 <= s[0] <= 0xFFFF && !IsHigh(s[0])
    ensures EncodedAs(s, [s[0]])
  {
    var ch := s[0];
    var q := ch / 64;
    Sixths(ch);
    Sixths(q);
    LowBits(ch);
    LowBits(q);
    ThreeLead(q / 64);
    assert EncodeFirst(s) == [0xE0 + q / 64, 0x80 + q % 64, 0x80 + ch % 64];
  }

  lemma FourBytes(s: seq<int>)
    requires s != [] && WellFormed(s) && IsHigh(s[0])
    ensures EncodedAs(s, [s[0] + 0x40, s[1]])
  {
    var h, l := s[0] - HIGH_SURROGATE_START, s[1] - LOW_SURROGATE_START;
    var c := SURROGATE_HALFBASE + h * SURROGATE_HALF + l;
    var q, r2, r1, r0 := c / 64 / 64 / 64, c / 64 / 64 % 64, c / 64 % 64, c % 64;
    assert 0 <= q < 5 && c == ((q * 64 + r2) * 64 + r1) * 64 + r0 by { FourDigits(c); }
    assert OneCharacter([0xF0 + q, 0x80 + r2, 0x80 + r1, 0x80 + r0], [s[0] + 0x40, s[1]]) by {
      assert c / SURROGATE_HALF == h + 0x40 && c % SURROGATE_HALF == l by { Halves(h + 0x40, l); }
      FourDecoded(q, r2, r1, r0);
    }
    FourEncoded(s, c);
  }

  lemma FourEncoded(s: seq<int>, c: int)
    requires s != [] && WellFormed(s) && IsHigh(s[0]) && 0x10000 <= c < 0x110000
    requires c == SURROGATE_HALFBASE + (s[0] - HIGH_SURROGATE_START) * SURROGATE_HALF + (s[1] - LOW_SURROGATE_START)
    ensures EncodeFirst(s) == [0xF0 + c / 64 / 64 / 64, 0x80 + c / 64 / 64 % 64, 0x80 + c / 64 % 64, 0x80 + c % 64]
  {
    Sixths(c);
    FourDigits(c);
    FourLead(c / 64 / 64 / 64);
  }

  lemma FourDigits(c: int)
    requires 0x10000 <= c < 0x110000
    ensures 0 <= c / 64 / 64 / 64 < 5
    ensures c == ((c / 64 / 64 / 64 * 64 + c / 64 / 64 % 64) * 64 + c / 64 % 64) * 64 + c % 64
  {
    Sixths(c);
    Sixths(c / 64);
    Sixths(c / 64 / 64);
  }

  lemma FourDecoded(q: int, r2: int, r1: int, r0: int)
    requires 0 <= q < 5 && 0 <= r2 < 64 && 0 <= r1 < 64 && 0 <= r0 < 64
    ensures var b := [0xF0 + q, 0x80 + r2, 0x80 + r1, 0x80 + r0];
      var c := ((q * 64 + r2) * 64 + r1) * 64 + r0;
      && LeadLength(b[0]) == 4 && !BadLead(b[0]) && LowPart(b[1]) && LowPart(b[2]) && LowPart(b[3])
      && DecodeFirst(b) == [c / SURROGATE_HALF + HIGH_SURROGATE_START, c % SURROGATE_HALF + LOW_SURROGATE_START]
  {
    FourLead(q);
    LowBits(r2);
    LowBits(r1);
    LowBits(r0);
  }

  lemma Halves(h: int, l: int)
    requires 0 <= h && 0 <= l < SURROGATE_HALF
    ensures (h * SURROGATE_HALF + l) / SURROGATE_HALF == h && (h * SURROGATE_HALF + l) % SURROGATE_HALF == l
  {
  }

  /** The first character's bytes are proper UTF-8, and decode to u. */
  ghost predicate EncodedAs(s: seq<int>, u: seq<int>)
    requires s != [] && WellFormed(s)
  {
    OneCharacter(EncodeFirst(s), u)
  }

  ghost predicate OneCharacter(b: seq<int>, u: seq<int>) {
    && b != [] && Bytes(b) && LeadLength(b[0]) == |b| && !BadLead(b[0]) && (forall k :: 1 <= k < |b| ==> LowPart(b[k]))
    && DecodeFirst(b) == u
  }

  lemma EncodedFirst(s: seq<int>)
    requires s != [] && WellFormed(s) && Units(s)
    ensures EncodedAs(s, if IsHigh(s[0]) then [s[0] + 0x40, s[1]] else [s[0]])
  {
    if s[0] < 0x80 {
      OneByte(s);
    } else if s[0] < 0x800 {
      TwoBytes(s);
    } else if IsHigh(s[0]) {
      FourBytes(s);
    } else {
      ThreeBytes(s);
    }
  }

  lemma DecodeFirstPrefix(a: seq<int>, b: seq<int>)
    requires a != [] && LeadLength(a[0]) == |a|
    ensures DecodeFirst(a + b) == DecodeFirst(a)
  {
  }

  lemma {:induction false} DecodeEncode(s: seq<int>, max: int)
    requires WellFormed(s) && Units(s) && |s| <= max
    ensures Bytes(Encode(s, max)) && Structured(Encode(s, max)) && Decodable(Encode(s, max))
    ensures Decode(Encode(s, max)) == RoundTripped(s)
    decreases |s|
  {
    if s != [] {
      var a, b := EncodeFirst(s), Encode(s[Width(s)..], if IsHigh(s[0]) then max else max - 1);
      EncodedFirst(s);
      DecodeEncode(s[Width(s)..], if IsHigh(s[0]) then max else max - 1);
      DecodeFirstPrefix(a, b);
      assert (a + b)[|a|..] == b;
      assert forall k :: 1 <= k < |a| ==> (a + b)[k] == a[k];
    }
  }

  /** The round trip is the identity exactly for strings without surrogate pairs: the decoder does not take
      off the base that the encoder adds. */
  lemma RoundTripIff(s: seq<int>, max: int)
    requires WellFormed(s) && Units(s) && |s| <= max
    ensures Decodable(Encode(s, max))
    ensures Decode(Encode(s, max)) == s <==> NoPairs(s)
  {
    DecodeEncode(s, max);
    RoundTrippedIff(s);
  }

  /** A surrogate pair comes back as another one. */
  lemma PairNotRestored()
    ensures var s := [0xD800, 0xDC00]; WellFormed(s) && RoundTripped(s) == [0xD840, 0xDC00] && Decode(Encode(s, 2)) != s
  {
    var s := [0xD800, 0xDC00];
    assert s[2..] == [];
    DecodeEncode(s, 2);
    RoundTripIff(s, 2);
  }

  lemma {:induction false} RoundTrippedIff(s: seq<int>)
    requires WellFormed(s)
    ensures |RoundTripped(s)| == |s|
    ensures RoundTripped(s) == s <==> NoPairs(s)
    decreases |s|
  {
    if s != [] {
      var w := Width(s);
      var t := s[w..];
      RoundTrippedIff(t);
      var head := if IsHigh(s[0]) then [s[0] + 0x40, s[1]] else [s[0]];
      assert RoundTripped(s) == head + RoundTripped(t);
      assert s == s[..w] + t;
      if !IsHigh(s[0]) {
        assert RoundTripped(s) == s <==> RoundTripped(t) == t by {
          assert RoundTripped(s)[1..] == RoundTripped(t) && s[1..] == t;
        }
        assert forall i :: 0 <= i < |t| ==> t[i] == s[i + 1];
        assert forall i :: 0 < i < |s| ==> s[i] == t[i - 1];
      } else {
        assert RoundTripped(s)[0] != s[0];
      }
    }
  }

  /** A conversion within a budget of units and of bytes and into limited room: what it writes, the input it
      leaves, and whether it succeeds. */
  datatype ToUnits = ToUnits(out: seq<int>, rest: seq<int>, ok: bool)

  /** It stops at the end, at a bad byte, and at a character that does not fit; of these it takes only a
      continuation byte that comes first from the input. */
  function ConvertFrom(b: seq<int>, chars: int, bytes: int, room: int): ToUnits
    requires ReadableBytes(b)
    decreases |b|
  {
    if chars <= 0 || bytes <= 0 then ToUnits([], b, room != 0)
    else if b == [] || BadLead(b[0]) then ToUnits([], b, false)
    else if LeadLength(b[0]) == 0 then ToUnits([], b[1..], false)
    else
      var n, u := LeadLength(b[0]), DecodeFirst(b);
      if bytes < n || 0 <= room < |u| then ToUnits([], b, false)
      else
        var r := ConvertFrom(b[n..], chars - |u|, bytes - n, if room < 0 then room else room - |u|);
        r.(out := u + r.out)
  }

  /** The conversion splits what can be decoded into what it writes and what it leaves. */
  lemma {:induction false} ConvertFromSplits(b: seq<int>, chars: int, bytes: int, room: int)
    requires Decodable(b)
    ensures var r := ConvertFrom(b, chars, bytes, room); Decodable(r.rest) && Decode(b) == r.out + Decode(r.rest)
    decreases |b|
  {
    var go, u, t, chars', bytes', room' := ConvertFromOne(b, chars, bytes, room);
    if go {
      ConvertFromSplits(t, chars', bytes', room');
      var r := ConvertFrom(t, chars', bytes', room');
      Combine(Decode(b), u, Decode(t), r.out, Decode(r.rest));
    } else {
      assert Decode(b) == [] + Decode(b);
    }
  }

  /** The conversion of one character, if it gets that far. */
  lemma ConvertFromOne(b: seq<int>, chars: int, bytes: int, room: int) returns (go: bool, u: seq<int>, t: seq<int>,
          chars': int, bytes': int, room': int)
    requires Decodable(b)
    ensures Decodable(t) && (go ==> |t| < |b|)
    ensures if go
      then Decode(b) == u + Decode(t) && ConvertFrom(b, chars, bytes, room) == BeforeUnits(u, ConvertFrom(t, chars', bytes', room'))
      else ConvertFrom(b, chars, bytes, room).rest == b && ConvertFrom(b, chars, bytes, room).out == []
  {
    go := 0 < chars && 0 < bytes && b != [] && LeadLength(b[0]) <= bytes && (room < 0 || |DecodeFirst(b)| <= room);
    u, t, chars', bytes', room' := [], [], 0, 0, 0;
    if go {
      u, t := DecodeFirst(b), b[LeadLength(b[0])..];
      chars', bytes', room' := chars - |u|, bytes - LeadLength(b[0]), if room < 0 then room else room - |u|;
    }
  }

  /** What was written before comes first. */
  function BeforeUnits(done: seq<int>, r: ToUnits): ToUnits { r.(out := done + r.out) }

  /** The bytes of the character that the unit at index belongs to. */
  function HolderLength(b: seq<int>, index: nat): (n: nat)
    requires Decodable(b) && index < |Decode(b)|
    ensures 1 <= n <= 4
    decreases |b|
  {
    var u := DecodeFirst(b);
    if index < |u| then LeadLength(b[0]) else HolderLength(b[LeadLength(b[0])..], index - |u|)
  }

  /** The unit at index is the first one of its character. */
  predicate StartsCharacter(b: seq<int>, index: nat): (r: bool)
    requires Decodable(b) && index < |Decode(b)|
    ensures !r ==> HolderLength(b, index) == 4
    decreases |b|
  {
    index == 0 || (index >= |DecodeFirst(b)| && StartsCharacter(b[LeadLength(b[0])..], index - |DecodeFirst(b)|))
  }

  /** Moving over index units stops at the unit, if a character starts there.  If not, the unit is the second of a
      pair, and the move stops behind the pair, or before it when only three bytes are left of the budget. */
  lemma {:induction false} MovedOver(b: seq<int>, index: nat, bytes: int)
    requires Decodable(b) && index < |Decode(b)| && index * 3 <= bytes
    ensures var r := ConvertFrom(b, index, bytes, -1);
      if StartsCharacter(b, index)
      then r.ok && |r.out| == index && r.rest != [] && LeadLength(r.rest[0]) == HolderLength(b, index)
      else if r.ok then |r.out| == index + 1
      else |r.out| == index - 1 && r.rest != [] && LeadLength(r.rest[0]) == 4
    decreases |b|
  {
    if index > 0 {
      var n, u := LeadLength(b[0]), DecodeFirst(b);
      if |u| <= index {
        MovedOver(b[n..], index - |u|, bytes - n);
        assert ConvertFrom(b, index, bytes, -1) == BeforeUnits(u, ConvertFrom(b[n..], index - |u|, bytes - n, -1));
      }
    }
  }

  /** String.get_Chars: moving over index units, and then converting one into the room that is left.  This hits the
      unit at that index exactly if the character that the unit belongs to takes at most three bytes.  Else it
      reads nothing, or the unit behind the pair. */
  lemma UnitAtIff(b: seq<int>, index: nat, room: int)
    requires Decodable(b) && index < |Decode(b)| && 1 < room
    ensures Decodable(ConvertFrom(b, index, index * 3, -1).rest)
    ensures var r := ConvertFrom(b, index, index * 3, -1); var read := ConvertFrom(r.rest, 1, 3, room);
      && (r.ok && |r.out| == index && read.ok <==> HolderLength(b, index) <= 3)
      && (HolderLength(b, index) <= 3 ==> read.out == [Decode(b)[index]])
      && (HolderLength(b, index) == 4 ==>
            read.out == [] || (index + 1 < |Decode(b)| && read.out == [Decode(b)[index + 1]] && !StartsCharacter(b, index)))
  {
    var r := ConvertFrom(b, index, index * 3, -1);
    MovedOver(b, index, index * 3);
    ConvertFromSplits(b, index, index * 3, -1);
    OneRead(r.rest, room);
    Behind(Decode(b), r.out, Decode(r.rest));
  }

  lemma Behind(whole: seq<int>, front: seq<int>, back: seq<int>)
    requires whole == front + back
    ensures |whole| == |front| + |back| && forall k :: |front| <= k < |whole| ==> whole[k] == back[k - |front|]
  {
  }

  /** Converting one unit reads the first one, if its character takes at most three bytes. */
  lemma OneRead(b: seq<int>, room: int)
    requires Decodable(b) && 1 < room
    ensures var read := ConvertFrom(b, 1, 3, room);
      if b != [] && LeadLength(b[0]) <= 3
      then read.ok && Decode(b) != [] && read.out == [Decode(b)[0]]
      else !read.ok && read.out == []
  {
    if b != [] && LeadLength(b[0]) <= 3 {
      assert ConvertFrom(b, 1, 3, room).out == DecodeFirst(b) + [];
    }
  }

  /** A character of four bytes is not read at all: the default budget of three bytes for one unit excludes it. */
  lemma FourByteUnit()
    ensures var b := [0xF0, 0x90, 0x80, 0x80]; Decodable(b) && ConvertFrom(b, 1, 3, 2) == ToUnits([], b, false)
  {
    assert [0xF0, 0x90, 0x80, 0x80][4..] == [];
  }

  /** Asking for the second unit of a pair may give the unit behind it: of a, a pair, and b, the unit at 2 is read
      as b. */
  lemma UnitBehindPair()
    ensures var b := [0x61, 0xF0, 0x90, 0x80, 0x80, 0x62];
      Decodable(b) && Decode(b) == [0x61, 0xD840, 0xDC00, 0x62] && ConvertFrom(b, 2, 6, -1).rest == [0x62]
    ensures ConvertFrom([0x62], 1, 3, 2) == ToUnits([0x62], [], true)
  {
    var b := [0x61, 0xF0, 0x90, 0x80, 0x80, 0x62];
    assert b[1..] == [0xF0, 0x90, 0x80, 0x80, 0x62];
    assert b[1..][4..] == [0x62] && [0x62][1..] == [];
  }

  /** With the number of units that were counted, and enough bytes, the conversion succeeds exactly if the bytes
      can be decoded, and then it converts all of them. */
  lemma {:induction false} CountedConverts(b: seq<int>, bytes: int)
    requires Structured(b) && |b| <= bytes
    ensures var r := ConvertFrom(b, CountCharacters(b, -1), bytes, -1);
      (r.ok <==> Decodable(b)) && (Decodable(b) ==> r.out == Decode(b) && r.rest == [])
    decreases |b|
  {
    CharactersCounted(b, -1);
    if b != [] {
      var n := LeadLength(b[0]);
      CountedConverts(b[n..], bytes - n);
      CharactersCounted(b[n..], -1);
      CharactersCounted(b[n..], -2);
      CountAgain(b[n..], -1, -2);
    }
  }

  /** All negative limits mean no limit. */
  lemma {:induction false} CountAgain(b: seq<int>, max: int, max': int)
    requires max < 0 && max' < 0
    ensures CountCharacters(b, max) == CountCharacters(b, max')
    decreases |b|
  {
    if b != [] && 1 <= LeadLength(b[0]) <= |b| {
      CountAgain(b[LeadLength(b[0])..], max - 1, max' - 1);
    }
  }

  /** The same with the default budget of three bytes for each unit. */
  lemma DefaultBudget(b: seq<int>)
    requires Structured(b)
    ensures var n := CountCharacters(b, -1); ConvertFrom(b, n, n * 3, -1).ok <==> Decodable(b)
  {
    CharactersCounted(b, -1);
    CountedConverts(b, CountCharacters(b, -1) * 3);
  }

  /** An overlong form is counted, but not converted. */
  lemma OverlongCounted()
    ensures var b := [0xC0, 0x80];
      Structured(b) && CountCharacters(b, -1) == 1 && !Decodable(b) && ConvertFrom(b, 1, 3, -1) == ToUnits([], b, false)
  {
    var b := [0xC0, 0x80];
    assert b[2..] == [];
  }

  /** One character more is written, unless it does not fit. */
  lemma StepTo(done: seq<int>, s: seq<int>, max: int, room: int)
    requires Readable(s) && s != [] && 0 < max
    ensures var b, t, max' := EncodeFirst(s), s[Width(s)..], if IsHigh(s[0]) then max else max - 1;
      Before(done, ConvertTo(s, max, room)) ==
        if 0 <= room < |b| then ToBytes(done, t, false, false)
        else Before(done + b, ConvertTo(t, max', if room < 0 then room else room - |b|))
  {
    var b, t, max' := EncodeFirst(s), s[Width(s)..], if IsHigh(s[0]) then max else max - 1;
    if !(0 <= room < |b|) {
      Regroup(done, b, ConvertTo(t, max', if room < 0 then room else room - |b|).out);
    }
  }

  lemma StepFrom(done: seq<int>, b: seq<int>, chars: int, bytes: int, room: int)
    requires ReadableBytes(b) && b != [] && !BadLead(b[0]) && 1 <= LeadLength(b[0]) <= bytes && 0 < chars
    ensures var n, u := LeadLength(b[0]), DecodeFirst(b);
      BeforeUnits(done, ConvertFrom(b, chars, bytes, room)) ==
        if 0 <= room < |u| then ToUnits(done, b, false)
        else BeforeUnits(done + u, ConvertFrom(b[n..], chars - |u|, bytes - n, if room < 0 then room else room - |u|))
  {
    var n, u := LeadLength(b[0]), DecodeFirst(b);
    if !(0 <= room < |u|) {
      Regroup(done, u, ConvertFrom(b[n..], chars - |u|, bytes - n, if room < 0 then room else room - |u|).out);
    }
  }

  // ---------- The converter ----------

  class UnicodeHelper {
    /** What the input pointers point at, up to the terminating zero. */
    var inputUTF8: seq<int>
    var inputUTF16: seq<int>
    /** The pointer into the UTF-16 input has moved behind the terminating zero. */
    var pastUTF16: bool
    /** The output buffers, and how much of them is written. */
    const outputUTF8: array<int>
    const outputUTF16: array<int>
    var outputUTF8_pos: nat
    var outputUTF16_pos: nat

    constructor (utf8: seq<int>, utf16: seq<int>, outputUTF8: array<int>, outputUTF16: array<int>)
      ensures inputUTF8 == utf8 && inputUTF16 == utf16 && this.outputUTF8 == outputUTF8 && this.outputUTF16 == outputUTF16
      ensures outputUTF8_pos == 0 && outputUTF16_pos == 0 && !pastUTF16
    {
      inputUTF8, inputUTF16, pastUTF16 := utf8, utf16, false;
      this.outputUTF8, this.outputUTF16 := outputUTF8, outputUTF16;
      outputUTF8_pos, outputUTF16_pos := 0, 0;
    }

    method CountNumberOfCharacters(max: int) returns (num: int)
      ensures num == CountCharacters(inputUTF8, max)
      ensures num == -1 <==> !exists n :: FirstCharacters(inputUTF8, max, n)
      ensures forall n :: FirstCharacters(inputUTF8, max, n) ==> num == Leads(inputUTF8[..n]) + WideLeads(inputUTF8[..n])
    {
      CountedUpTo(inputUTF8, max);
      var pSrc, m := inputUTF8, max;
      num := 0;
      while pSrc != [] && m != 0
        invariant CountCharacters(inputUTF8, max) == Plus(num, CountCharacters(pSrc, m)) && 0 <= num
        decreases |pSrc|
      {
        var n := LeadLength(pSrc[0]);
        if n == 0 || |pSrc| < n { return -1; }
        var k := 1;
        while k < n
          invariant 1 <= k <= n && forall j :: 1 <= j < k ==> LowPart(pSrc[j])
        {
          if !LowPart(pSrc[k]) { return -1; }
          k := k + 1;
        }
        num := num + if n == 4 then 2 else 1;
        pSrc, m := pSrc[n..], m - 1;
      }
    }

    method CountNumberOfBytes(max: int) returns (num: int)
      ensures num == CountBytes(inputUTF16, max)
    {
      var pSrc, m := inputUTF16, max;
      num := 0;
      while pSrc != [] && m != 0
        invariant CountBytes(inputUTF16, max) == Plus(num, CountBytes(pSrc, m)) && 0 <= num
        decreases |pSrc|
      {
        var ch := pSrc[0];
        var width := 1;
        if ch < 0x80 {
          num := num + 1;
        } else if ch < 0x800 {
          num := num + 2;
        } else if IsLow(ch) {
          return -1;
        } else if IsHigh(ch) {
          if |pSrc| < 2 || !IsLow(pSrc[1]) { return -1; }
          num := num + 4;
          width := 2;
        } else {
          num := num + 3;
        }
        pSrc, m := pSrc[width..], m - 1;
      }
    }

    /** Append bytes to the output. */
    method Put8(b: seq<int>)
      requires outputUTF8_pos + |b| <= outputUTF8.Length
      modifies this`outputUTF8_pos, outputUTF8
      ensures outputUTF8_pos == old(outputUTF8_pos) + |b| && outputUTF8[..outputUTF8_pos] == old(outputUTF8[..outputUTF8_pos]) + b
    {
      var i := 0;
      while i < |b|
        invariant 0 <= i <= |b| && outputUTF8_pos == old(outputUTF8_pos)
        invariant outputUTF8[..outputUTF8_pos + i] == old(outputUTF8[..outputUTF8_pos]) + b[..i]
      {
        outputUTF8[outputUTF8_pos + i] := b[i];
        i := i + 1;
      }
      outputUTF8_pos := outputUTF8_pos + |b|;
      assert b[..i] == b;
    }

    method Put16(u: seq<int>)
      requires outputUTF16_pos + |u| <= outputUTF16.Length
      modifies this`outputUTF16_pos, outputUTF16
      ensures outputUTF16_pos == old(outputUTF16_pos) + |u| && outputUTF16[..outputUTF16_pos] == old(outputUTF16[..outputUTF16_pos]) + u
    {
      var i := 0;
      while i < |u|
        invariant 0 <= i <= |u| && outputUTF16_pos == old(outputUTF16_pos)
        invariant outputUTF16[..outputUTF16_pos + i] == old(outputUTF16[..outputUTF16_pos]) + u[..i]
      {
        outputUTF16[outputUTF16_pos + i] := u[i];
        i := i + 1;
      }
      outputUTF16_pos := outputUTF16_pos + |u|;
      assert u[..i] == u;
    }

    /** The output holds what it held before the conversion, and then done. */
    ghost predicate Out8(base: seq<int>, done: seq<int>)
      reads this, outputUTF8
    {
      outputUTF8_pos == |base| + |done| <= outputUTF8.Length && outputUTF8[..outputUTF8_pos] == base + done
    }

    /** Append unless only moving; fails if there is no room. */
    method Emit8(b: seq<int>, fJustMove: bool, ghost base: seq<int>, ghost done: seq<int>) returns (ok: bool)
      requires outputUTF8_pos <= outputUTF8.Length && (!fJustMove ==> Out8(base, done))
      modifies this`outputUTF8_pos, outputUTF8
      ensures outputUTF8_pos <= outputUTF8.Length
      ensures ok <==> fJustMove || old(outputUTF8_pos) + |b| <= outputUTF8.Length
      ensures fJustMove || !ok ==> outputUTF8[..] == old(outputUTF8[..]) && outputUTF8_pos == old(outputUTF8_pos)
      ensures !fJustMove && ok ==> Out8(base, done + b)
    {
      ok := true;
      if !fJustMove {
        if outputUTF8.Length - outputUTF8_pos < |b| { return false; }
        Put8(b);
      }
    }

    /** The output holds what it held before the conversion, and then done. */
    ghost predicate Out16(base: seq<int>, done: seq<int>)
      reads this, outputUTF16
    {
      outputUTF16_pos == |base| + |done| <= outputUTF16.Length && outputUTF16[..outputUTF16_pos] == base + done
    }

    /** Append unless only moving; fails if there is no room. */
    method Emit16(b: seq<int>, fJustMove: bool, ghost base: seq<int>, ghost done: seq<int>) returns (ok: bool)
      requires outputUTF16_pos <= outputUTF16.Length && (!fJustMove ==> Out16(base, done))
      modifies this`outputUTF16_pos, outputUTF16
      ensures outputUTF16_pos <= outputUTF16.Length
      ensures ok <==> fJustMove || old(outputUTF16_pos) + |b| <= outputUTF16.Length
      ensures fJustMove || !ok ==> outputUTF16[..] == old(outputUTF16[..]) && outputUTF16_pos == old(outputUTF16_pos)
      ensures !fJustMove && ok ==> Out16(base, done + b)
    {
      ok := true;
      if !fJustMove {
        if outputUTF16.Length - outputUTF16_pos < |b| { return false; }
        Put16(b);
      }
    }

    /** The output, whose contents were out0 and base up to the position, after done has been written. */
    ghost predicate Written8(fJustMove: bool, out0: seq<int>, base: seq<int>, done: seq<int>, room: int)
      reads this, outputUTF8
    {
      && outputUTF8_pos <= outputUTF8.Length && room == (if fJustMove then -1 else outputUTF8.Length - outputUTF8_pos)
      && if fJustMove then outputUTF8[..] == out0 && outputUTF8_pos == |base| else Out8(base, done)
    }

    /** ConvertToUTF8. */
    method ConvertToUTF8(iMaxChars: int, fJustMove: bool) returns (res: bool)
      requires Readable(inputUTF16) && !pastUTF16 && outputUTF8_pos <= outputUTF8.Length
      modifies this`inputUTF16, this`pastUTF16, this`outputUTF8_pos, outputUTF8
      ensures outputUTF8_pos <= outputUTF8.Length
      ensures var r := ConvertTo(old(inputUTF16), iMaxChars, if fJustMove then -1 else outputUTF8.Length - old(outputUTF8_pos));
        && res == r.ok && inputUTF16 == r.rest && pastUTF16 == r.past
        && (!fJustMove ==> outputUTF8[..outputUTF8_pos] == old(outputUTF8[..outputUTF8_pos]) + r.out)
      ensures fJustMove ==> outputUTF8[..] == old(outputUTF8[..]) && outputUTF8_pos == old(outputUTF8_pos)
      ensures !fJustMove && res ==> outputUTF8_pos < outputUTF8.Length && outputUTF8[outputUTF8_pos] == 0
    {
      ghost var room := if fJustMove then -1 else outputUTF8.Length - outputUTF8_pos;
      ghost var whole, done, out0, base := ConvertTo(inputUTF16, iMaxChars, room), [], outputUTF8[..], outputUTF8[..outputUTF8_pos];
      var max, ok := iMaxChars, true;
      while max > 0
        invariant Readable(inputUTF16) && !pastUTF16 && Written8(fJustMove, out0, base, done, room)
        invariant whole == Before(done, ConvertTo(inputUTF16, max, room))
        decreases |inputUTF16|
      {
        if inputUTF16 == [] {
          pastUTF16 := true;
          break;
        }
        ok, max, done, room := Next8(max, fJustMove, out0, base, done, room);
        if !ok { return false; }
      }
      res := Terminate8(fJustMove);
    }

    /** Take one character from the input and write its bytes. */
    method Next8(max0: int, fJustMove: bool, ghost out0: seq<int>, ghost base: seq<int>, ghost done0: seq<int>,
            ghost room0: int)
      returns (ok: bool, max: int, ghost done: seq<int>, ghost room: int)
      requires Readable(inputUTF16) && inputUTF16 != [] && 0 < max0 && Written8(fJustMove, out0, base, done0, room0)
      modifies this`inputUTF16, this`outputUTF8_pos, outputUTF8
      ensures Readable(inputUTF16) && |inputUTF16| < old(|inputUTF16|) && Written8(fJustMove, out0, base, done, room)
      ensures Before(done0, ConvertTo(old(inputUTF16), max0, room0)) ==
        if ok then Before(done, ConvertTo(inputUTF16, max, room)) else ToBytes(done, inputUTF16, false, false)
    {
      var b, ch := EncodeFirst(inputUTF16), inputUTF16[0];
      StepTo(done0, inputUTF16, max0, room0);
      inputUTF16 := inputUTF16[Width(inputUTF16)..];
      ok := Emit8(b, fJustMove, base, done0);
      max := if IsHigh(ch) then max0 else max0 - 1;
      done, room := if ok then done0 + b else done0, if fJustMove || !ok then room0 else room0 - |b|;
    }

    /** The terminating zero, which does not move the position. */
    method Terminate8(fJustMove: bool) returns (res: bool)
      requires outputUTF8_pos <= outputUTF8.Length
      modifies outputUTF8
      ensures res <==> fJustMove || outputUTF8_pos < outputUTF8.Length
      ensures fJustMove || !res ==> outputUTF8[..] == old(outputUTF8[..])
      ensures outputUTF8[..outputUTF8_pos] == old(outputUTF8[..outputUTF8_pos])
      ensures !fJustMove && res ==> outputUTF8[outputUTF8_pos] == 0
    {
      if !fJustMove {
        if outputUTF8.Length - outputUTF8_pos < 1 { return false; }
        outputUTF8[outputUTF8_pos] := 0;
      }
      res := true;
    }

    /** The output, whose contents were out0 and base up to the position, after done has been written. */
    ghost predicate Written16(fJustMove: bool, out0: seq<int>, base: seq<int>, done: seq<int>, room: int)
      reads this, outputUTF16
    {
      && outputUTF16_pos <= outputUTF16.Length && room == (if fJustMove then -1 else outputUTF16.Length - outputUTF16_pos)
      && if fJustMove then outputUTF16[..] == out0 && outputUTF16_pos == |base| else Out16(base, done)
    }

    /** ConvertFromUTF8; iMaxBytes == -1 stands for three bytes for each unit. */
    method ConvertFromUTF8(iMaxChars: int, fJustMove: bool, iMaxBytes: int) returns (res: bool)
      requires ReadableBytes(inputUTF8) && outputUTF16_pos <= outputUTF16.Length
      modifies this`inputUTF8, this`outputUTF16_pos, outputUTF16
      ensures outputUTF16_pos <= outputUTF16.Length
      ensures var r := ConvertFrom(old(inputUTF8), iMaxChars, if iMaxBytes == -1 then iMaxChars * 3 else iMaxBytes,
          if fJustMove then -1 else outputUTF16.Length - old(outputUTF16_pos));
        && res == r.ok && inputUTF8 == r.rest
        && (!fJustMove ==> outputUTF16[..outputUTF16_pos] == old(outputUTF16[..outputUTF16_pos]) + r.out)
      ensures fJustMove ==> outputUTF16[..] == old(outputUTF16[..]) && outputUTF16_pos == old(outputUTF16_pos)
      ensures !fJustMove && res ==> outputUTF16_pos < outputUTF16.Length && outputUTF16[outputUTF16_pos] == 0
    {
      var chars := iMaxChars;
      var bytes := if iMaxBytes == -1 then iMaxChars * 3 else iMaxBytes;
      ghost var room := if fJustMove then -1 else outputUTF16.Length - outputUTF16_pos;
      ghost var whole, done, out0, base := ConvertFrom(inputUTF8, chars, bytes, room), [], outputUTF16[..], outputUTF16[..outputUTF16_pos];
      var ok := true;
      while chars > 0 && bytes > 0
        invariant ReadableBytes(inputUTF8) && Written16(fJustMove, out0, base, done, room)
        invariant whole == BeforeUnits(done, ConvertFrom(inputUTF8, chars, bytes, room))
        decreases |inputUTF8|
      {
        ok, chars, bytes, done, room := Next16(chars, bytes, fJustMove, out0, base, done, room);
        if !ok { return false; }
      }
      res := Terminate16(fJustMove);
    }

    /** Take one character from the input and write its units. */
    method Next16(chars0: int, bytes0: int, fJustMove: bool, ghost out0: seq<int>, ghost base: seq<int>,
            ghost done0: seq<int>, ghost room0: int)
      returns (ok: bool, chars: int, bytes: int, ghost done: seq<int>, ghost room: int)
      requires ReadableBytes(inputUTF8) && 0 < chars0 && 0 < bytes0 && Written16(fJustMove, out0, base, done0, room0)
      modifies this`inputUTF8, this`outputUTF16_pos, outputUTF16
      ensures ok ==> ReadableBytes(inputUTF8) && |inputUTF8| < old(|inputUTF8|)
      ensures Written16(fJustMove, out0, base, done, room)
      ensures BeforeUnits(done0, ConvertFrom(old(inputUTF8), chars0, bytes0, room0)) ==
        if ok then BeforeUnits(done, ConvertFrom(inputUTF8, chars, bytes, room)) else ToUnits(done, inputUTF8, false)
    {
      ok, chars, bytes, done, room := false, chars0, bytes0, done0, room0;
      if inputUTF8 == [] || BadLead(inputUTF8[0]) { return; }
      var n := LeadLength(inputUTF8[0]);
      if n == 0 {
        inputUTF8 := inputUTF8[1..];
        return;
      }
      if bytes < n { return; }
      ok, chars, bytes, done, room := Take16(n, chars0, bytes0, fJustMove, out0, base, done0, room0);
    }

    /** The same for a character that can be decoded and for which there are enough bytes. */
    method Take16(n: int, chars0: int, bytes0: int, fJustMove: bool, ghost out0: seq<int>, ghost base: seq<int>,
            ghost done0: seq<int>, ghost room0: int)
      returns (ok: bool, chars: int, bytes: int, ghost done: seq<int>, ghost room: int)
      requires ReadableBytes(inputUTF8) && 0 < chars0 && Written16(fJustMove, out0, base, done0, room0)
      requires inputUTF8 != [] && !BadLead(inputUTF8[0]) && n == LeadLength(inputUTF8[0]) && 1 <= n <= bytes0
      modifies this`inputUTF8, this`outputUTF16_pos, outputUTF16
      ensures ok ==> ReadableBytes(inputUTF8) && |inputUTF8| < old(|inputUTF8|)
      ensures Written16(fJustMove, out0, base, done, room)
      ensures BeforeUnits(done0, ConvertFrom(old(inputUTF8), chars0, bytes0, room0)) ==
        if ok then BeforeUnits(done, ConvertFrom(inputUTF8, chars, bytes, room)) else ToUnits(done, inputUTF8, false)
    {
      chars, bytes, done, room := chars0, bytes0, done0, room0;
      var u := DecodeFirst(inputUTF8);
      StepFrom(done, inputUTF8, chars, bytes, room);
      ok := Emit16(u, fJustMove, base, done);
      if ok {
        inputUTF8 := inputUTF8[n..];
        chars, bytes := chars - |u|, bytes - n;
        done, room := done + u, if fJustMove then room else room - |u|;
      }
    }

    /** The terminating zero, which does not move the position. */
    method Terminate16(fJustMove: bool) returns (res: bool)
      requires outputUTF16_pos <= outputUTF16.Length
      modifies outputUTF16
      ensures res <==> fJustMove || outputUTF16_pos < outputUTF16.Length
      ensures fJustMove || !res ==> outputUTF16[..] == old(outputUTF16[..])
      ensures outputUTF16[..outputUTF16_pos] == old(outputUTF16[..outputUTF16_pos])
      ensures !fJustMove && res ==> outputUTF16[outputUTF16_pos] == 0
    {
      if !fJustMove {
        if outputUTF16.Length - outputUTF16_pos < 1 { return false; }
        outputUTF16[outputUTF16_pos] := 0;
      }
      res := true;
    }
  }
}
