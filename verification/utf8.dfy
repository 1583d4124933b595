/** UTF-8 decoding of the typesetter (type.c, `utf8`): the lead-byte classes of
    section 3 of RFC 3629, the encoder the decoder is checked against, and the
    codepoint sequence a NUL-terminated string yields.

    Bytes are integers in [0, 256). The source tests and strips bits with masks
    (`b & 0xE0`, `b & 0x3F`, ...); here the tests are ranges and the masks are
    remainders, and `LeadLengthIsMaskTest` and `MaskIsRemainder` show that the
    two agree on every byte. */
module Utf8 {

  type byte = b: int | 0 <= b < 256

  /** One call of the decoder: the codepoint and the cursor after it, or a read
      past the end of the byte buffer (undefined behaviour in C). */
  datatype Step = Char(c: int, next: nat) | Overrun

  /** Number of bytes the lead byte announces; 0 for a byte that starts no class
      (`10xxxxxx` or `11111xxx`). */
  function LeadLength(b: byte): nat {
    if b < 0x80 then 1
    else if b < 0xC0 then 0
    else if b < 0xE0 then 2
    else if b < 0xF0 then 3
    else if b < 0xF8 then 4
    else 0
  }

  /** The range tests are the source's mask tests, taken in its order. */
  lemma LeadLengthIsMaskTest(b: bv8)
    ensures LeadLength(b as int) ==
              if b & 0x80 == 0x00 then 1
              else if b & 0xE0 == 0xC0 then 2
              else if b & 0xF0 == 0xE0 then 3
              else if b & 0xF8 == 0xF0 then 4
              else 0
  {
  }

  /** Masking a byte with `2^k - 1` keeps its remainder modulo `2^k`. */
  lemma MaskIsRemainder(b: bv8)
    ensures (b & 0x3F) as int == b as int % 64
    ensures (b & 0x1F) as int == b as int % 32
    ensures (b & 0x0F) as int == b as int % 16
    ensures (b & 0x07) as int == b as int % 8
  {
    Mask6(b);
    Mask5(b);
    Mask4(b);
    Mask3(b);
  }

  lemma Mask6(b: bv8) ensures (b & 0x3F) as int == b as int % 64 { }
  lemma Mask5(b: bv8) ensures (b & 0x1F) as int == b as int % 32 { }
  lemma Mask4(b: bv8) ensures (b & 0x0F) as int == b as int % 16 { }
  lemma Mask3(b: bv8) ensures (b & 0x07) as int == b as int % 8 { }

  /** The payloads are combined with shifts and `|`; where the shifted payloads
      do not overlap this is a sum of multiples. */
  lemma OrIsSum(a: bv32, b: bv32, c: bv32)
    requires b < 64 && c < 64
    ensures a < 32 ==> ((a << 6) | b) as int == a as int * 64 + b as int
    ensures a < 16 ==> ((a << 12) | (b << 6) | c) as int == a as int * 4096 + b as int * 64 + c as int
  {
    if a < 32 {
      Or2(a, b);
    }
    if a < 16 {
      Or3(a, b, c);
    }
  }

  lemma Or2(a: bv32, b: bv32)
    requires a < 32 && b < 64
    ensures ((a << 6) | b) as int == a as int * 64 + b as int
  {
  }

  lemma Or3(a: bv32, b: bv32, c: bv32)
    requires a < 16 && b < 64 && c < 64
    ensures ((a << 12) | (b << 6) | c) as int == a as int * 4096 + b as int * 64 + c as int
  {
  }

  /** `(a << 18) | (b << 12) | (c << 8) | d`, the four-byte combination as the
      source writes it: the third payload is shifted by 8, so its top two bits
      land on the low two bits of the second payload. */
  function CombineAsWritten(a: int, b: int, c: int, d: int): (v: int)
    requires 0 <= a < 8 && 0 <= b < 64 && 0 <= c < 64 && 0 <= d < 64
    ensures 0 <= v < 0x200000
    ensures v == 0 <==> a == 0 && b == 0 && c == 0 && d == 0
    ensures v == 0x20 <==> a == 0 && b == 0 && c == 0 && d == 0x20
  {
    CombineBelow(a, b, c, d);
    CombineZero(a, b, c, d);
    CombineSpace(a, b, c, d);
    Combine(a as bv32, b as bv32, c as bv32, d as bv32) as int
  }

  /** The bitwise combination of the four payloads, in a C `int`. */
  function Combine(a: bv32, b: bv32, c: bv32, d: bv32): bv32 {
    (a << 18) | (b << 12) | (c << 8) | d
  }

  lemma CombineBelow(a: int, b: int, c: int, d: int)
    requires 0 <= a < 8 && 0 <= b < 64 && 0 <= c < 64 && 0 <= d < 64
    ensures 0 <= Combine(a as bv32, b as bv32, c as bv32, d as bv32) as int < 0x200000
  {
    Below21(a as bv32, b as bv32, c as bv32, d as bv32);
  }

  lemma CombineZero(a: int, b: int, c: int, d: int)
    requires 0 <= a < 8 && 0 <= b < 64 && 0 <= c < 64 && 0 <= d < 64
    ensures Combine(a as bv32, b as bv32, c as bv32, d as bv32) as int == 0 <==> a == 0 && b == 0 && c == 0 && d == 0
  {
    OrZero(a as bv32, b as bv32, c as bv32, d as bv32);
    Small(a);
    Small(b);
    Small(c);
    Small(d);
    Wide(Combine(a as bv32, b as bv32, c as bv32, d as bv32));
  }

  lemma CombineSpace(a: int, b: int, c: int, d: int)
    requires 0 <= a < 8 && 0 <= b < 64 && 0 <= c < 64 && 0 <= d < 64
    ensures Combine(a as bv32, b as bv32, c as bv32, d as bv32) as int == 0x20 <==> a == 0 && b == 0 && c == 0 && d == 0x20
  {
    OrZero(a as bv32, b as bv32, c as bv32, d as bv32);
    Small(a);
    Small(b);
    Small(c);
    Small(d);
    Wide(Combine(a as bv32, b as bv32, c as bv32, d as bv32));
  }

  /** A payload compares with 0 and 0x20 alike as an integer and as bits. */
  lemma Small(a: int)
    requires 0 <= a < 64
    ensures (a as bv32 == 0 <==> a == 0) && (a as bv32 == 0x20 <==> a == 0x20)
  {
  }

  lemma Wide(v: bv32)
    ensures (v as int == 0 <==> v == 0) && (v as int == 0x20 <==> v == 0x20)
  {
  }

  lemma Below21(a: bv32, b: bv32, c: bv32, d: bv32)
    requires a < 8 && b < 64 && c < 64 && d < 64
    ensures Combine(a, b, c, d) < 0x200000
  {
  }

  /** The decoder; `fixed` selects the RFC 3629 shift of 6 for the third byte
      of the four-byte class instead of the source's 8. */
  function Decode(s: seq<byte>, p: nat, fixed: bool): (r: Step)
    ensures p >= |s| ==> r == Overrun
    ensures p < |s| && LeadLength(s[p]) == 0 ==> r == Char(0, p)
    ensures p < |s| && LeadLength(s[p]) > 0 ==>
              (r.Overrun? <==> p + LeadLength(s[p]) > |s|)
    ensures r.Char? ==> r.next == p + LeadLength(s[p]) <= |s| && 0 <= r.c < 0x200000
  {
    if p >= |s| then Overrun
    else
      var n := LeadLength(s[p]);
      if n == 0 then Char(0, p)
      else if p + n > |s| then Overrun
      else if n == 1 then Char(s[p], p + 1)
      else
        var b0: int, b1: int := s[p], s[p+1];
        if n == 2 then Char(b0 % 32 * 64 + b1 % 64, p + 2)
        else
          var b2: int := s[p+2];
          if n == 3 then Char(b0 % 16 * 4096 + b1 % 64 * 64 + b2 % 64, p + 3)
          else
            var b3: int := s[p+3];
            if fixed then Char(b0 % 8 * 262144 + b1 % 64 * 4096 + b2 % 64 * 64 + b3 % 64, p + 4)
            else Char(CombineAsWritten(b0 % 8, b1 % 64, b2 % 64, b3 % 64), p + 4)
  }

  /** `utf8` as written: decode at cursor `p` of buffer `s`. */
  function Next(s: seq<byte>, p: nat): Step {
    Decode(s, p, false)
  }

  /** The decoder with the RFC 3629 shift in the four-byte class. */
  function NextFixed(s: seq<byte>, p: nat): Step {
    Decode(s, p, true)
  }

  /** A continuation byte, `10xxxxxx`. */
  predicate IsContinuation(b: byte) {
    0x80 <= b < 0xC0
  }

  /** The UTF-8 encoding of a codepoint, following the table of section 3 of
      RFC 3629: the lead byte announces the length and every further byte is a
      `10xxxxxx` continuation byte. */
  function Encode(c: int): (r: seq<byte>)
    requires 0 <= c < 0x110000
    ensures |r| == (if c < 0x80 then 1 else if c < 0x800 then 2
                    else if c < 0x10000 then 3 else 4)
    ensures LeadLength(r[0]) == |r|
    ensures forall k :: 1 <= k < |r| ==> IsContinuation(r[k])
  {
    if c < 0x80 then [c]
    else if c < 0x800 then [0xC0 + c / 64, 0x80 + c % 64]
    else if c < 0x10000 then [0xE0 + c / 4096, 0x80 + c / 64 % 64, 0x80 + c % 64]
    else [0xF0 + c / 262144, 0x80 + c / 4096 % 64, 0x80 + c / 64 % 64, 0x80 + c % 64]
  }

  /** Base-64 digits of a codepoint, as the encoder splits it. */
  lemma Digits(c: int)
    requires 0 <= c
    ensures c / 64 * 64 + c % 64 == c
    ensures c / 4096 * 4096 + c / 64 % 64 * 64 + c % 64 == c
    ensures c / 262144 * 262144 + c / 4096 % 64 * 4096 + c / 64 % 64 * 64 + c % 64 == c
  {
    var q := c / 64;
    assert c == q * 64 + c % 64;
    assert q == q / 64 * 64 + q % 64;
    assert q / 64 == c / 4096;
    var q2 := q / 64;
    assert q2 == q2 / 64 * 64 + q2 % 64;
    assert q2 / 64 == c / 262144;
    assert q2 % 64 == c / 4096 % 64;
  }

  /** Decoding the encoding of `c`, placed anywhere in a buffer, gives `c` and
      moves the cursor over exactly its encoding; for the four-byte class this
      holds of the corrected decoder. */
  lemma DecodeEncoded(pre: seq<byte>, c: int, post: seq<byte>, fixed: bool)
    requires 0 <= c < 0x110000
    requires c >= 0x10000 ==> fixed
    ensures Decode(pre + Encode(c) + post, |pre|, fixed) == Char(c, |pre| + |Encode(c)|)
  {
    var e := Encode(c);
    var s := pre + e + post;
    var p := |pre|;
    forall k | 0 <= k < |e| ensures s[p + k] == e[k] { }
    Digits(c);
    if c < 0x80 {
    } else if c < 0x800 {
      DecodeTwo(s, p, c, fixed);
    } else if c < 0x10000 {
      DecodeThree(s, p, c, fixed);
    } else {
      DecodeFour(s, p, c);
    }
  }

  lemma DecodeTwo(s: seq<byte>, p: nat, c: int, fixed: bool)
    requires 0x80 <= c < 0x800 && p + 2 <= |s|
    requires s[p] == 0xC0 + c / 64 && s[p+1] == 0x80 + c % 64
    ensures Decode(s, p, fixed) == Char(c, p + 2)
  {
    Digits(c);
  }

  lemma DecodeThree(s: seq<byte>, p: nat, c: int, fixed: bool)
    requires 0x800 <= c < 0x10000 && p + 3 <= |s|
    requires s[p] == 0xE0 + c / 4096 && s[p+1] == 0x80 + c / 64 % 64 && s[p+2] == 0x80 + c % 64
    ensures Decode(s, p, fixed) == Char(c, p + 3)
  {
    Digits(c);
    assert LeadLength(s[p]) == 3;
    var b0: int, b1: int, b2: int := s[p], s[p+1], s[p+2];
    assert b0 % 16 == c / 4096 && b1 % 64 == c / 64 % 64 && b2 % 64 == c % 64;
  }

  lemma DecodeFour(s: seq<byte>, p: nat, c: int)
    requires 0x10000 <= c < 0x110000 && p + 4 <= |s|
    requires s[p] == 0xF0 + c / 262144 && s[p+1] == 0x80 + c / 4096 % 64
    requires s[p+2] == 0x80 + c / 64 % 64 && s[p+3] == 0x80 + c % 64
    ensures Decode(s, p, true) == Char(c, p + 4)
  {
    Digits(c);
    assert LeadLength(s[p]) == 4;
    var b0: int, b1: int, b2: int, b3: int := s[p], s[p+1], s[p+2], s[p+3];
    assert b0 % 8 == c / 262144 && b1 % 64 == c / 4096 % 64;
    assert b2 % 64 == c / 64 % 64 && b3 % 64 == c % 64;
  }

  /** Encoding then decoding with either decoder gives the codepoint back and
      advances over exactly its encoding, for every codepoint below 0x10000
      (the one-, two- and three-byte classes). */
  lemma RoundTrip(pre: seq<byte>, c: int, post: seq<byte>)
    requires 0 <= c < 0x10000
    ensures Next(pre + Encode(c) + post, |pre|) == Char(c, |pre| + |Encode(c)|)
    ensures NextFixed(pre + Encode(c) + post, |pre|) == Char(c, |pre| + |Encode(c)|)
  {
    DecodeEncoded(pre, c, post, false);
    DecodeEncoded(pre, c, post, true);
  }

  /** The corrected decoder round-trips every codepoint RFC 3629 can encode,
      including the four-byte class. */
  lemma RoundTripFixed(pre: seq<byte>, c: int, post: seq<byte>)
    requires 0 <= c < 0x110000
    ensures NextFixed(pre + Encode(c) + post, |pre|) == Char(c, |pre| + |Encode(c)|)
  {
    DecodeEncoded(pre, c, post, true);
  }

  /** U+10040 is encoded F0 90 81 80; the source's decoder shifts the third
      byte by 8 and returns 0x10100 instead. */
  lemma FourByteShiftWrong()
    ensures Encode(0x10040) == [0xF0, 0x90, 0x81, 0x80]
    ensures Next(Encode(0x10040), 0) == Char(0x10100, 4)
    ensures NextFixed(Encode(0x10040), 0) == Char(0x10040, 4)
  {
    assert CombineAsWritten(0, 0x10, 1, 0) == 0x10100;
    RoundTripFixed([], 0x10040, []);
    assert [] + Encode(0x10040) + [] == Encode(0x10040);
  }

  /** The two decoders differ only in the value of a four-byte sequence: they
      advance alike, and neither returns 0 or a space where the other does not.
      So every count the typesetter takes is the same under both. */
  lemma DecodersAgreeOnClasses(s: seq<byte>, p: nat)
    ensures Next(s, p).Overrun? <==> NextFixed(s, p).Overrun?
    ensures Next(s, p).Char? ==> Next(s, p).next == NextFixed(s, p).next
    ensures Next(s, p).Char? ==> (Next(s, p).c == 0 <==> NextFixed(s, p).c == 0)
    ensures Next(s, p).Char? ==> (Next(s, p).c == 0x20 <==> NextFixed(s, p).c == 0x20)
    ensures p < |s| && LeadLength(s[p]) != 4 ==> Next(s, p) == NextFixed(s, p)
  {
    if p < |s| && LeadLength(s[p]) == 4 && p + 4 <= |s| {
      FourByteClassesAgree(s, p);
    } else {
      OtherClassesAgree(s, p);
    }
  }

  lemma OtherClassesAgree(s: seq<byte>, p: nat)
    requires !(p < |s| && LeadLength(s[p]) == 4 && p + 4 <= |s|)
    ensures Next(s, p) == NextFixed(s, p)
  {
  }

  lemma FourByteClassesAgree(s: seq<byte>, p: nat)
    requires p + 4 <= |s| && LeadLength(s[p]) == 4
    ensures Next(s, p).Char? && NextFixed(s, p).Char?
    ensures Next(s, p).next == NextFixed(s, p).next == p + 4
    ensures Next(s, p).c == 0 <==> NextFixed(s, p).c == 0
    ensures Next(s, p).c == 0x20 <==> NextFixed(s, p).c == 0x20
  {
  }

  /** The as-written combination is 0 only when every payload is, and 0x20 only
      for payloads 0, 0, 0, 0x20, exactly as the corrected one. */
  lemma OrZero(a: bv32, b: bv32, c: bv32, d: bv32)
    requires a < 8 && b < 64 && c < 64 && d < 64
    ensures Combine(a, b, c, d) == 0 <==> a == 0 && b == 0 && c == 0 && d == 0
    ensures Combine(a, b, c, d) == 0x20 <==> a == 0 && b == 0 && c == 0 && d == 0x20
  {
  }

  /** The codepoints `for (p = str; (c = utf8(&p));)` visits from cursor `p`,
      with the decoder as written (`fixed` false) or corrected: the walk stops
      at the first 0 (a NUL, an unknown lead byte, or a sequence that decodes
      to 0) or where the next read would leave the buffer. */
  function CharsFrom(s: seq<byte>, p: nat, fixed: bool): (r: seq<int>)
    decreases |s| - p
    ensures forall k :: 0 <= k < |r| ==> 0 < r[k] < 0x200000
  {
    match Decode(s, p, fixed)
    case Overrun => []
    case Char(c, q) => if c == 0 then [] else [c] + CharsFrom(s, q, fixed)
  }

  /** The codepoints of a NUL-terminated string, as the typesetter reads them:
      with `utf8` as written. */
  function Chars(s: seq<byte>): seq<int> {
    CharsFrom(s, 0, false)
  }

  /** The codepoints of a NUL-terminated string under the corrected decoder. */
  function CharsFixed(s: seq<byte>): seq<int> {
    CharsFrom(s, 0, true)
  }

  /** The two walks visit the same number of codepoints with the spaces in the
      same places, so every count the typesetter takes (spaces, non-spaces,
      glyphs) is the same under both decoders; only the character looked up
      for a four-byte sequence differs. */
  lemma {:induction false} WalksAgreeOnShape(s: seq<byte>, p: nat)
    ensures |CharsFrom(s, p, false)| == |CharsFrom(s, p, true)|
    ensures forall k :: 0 <= k < |CharsFrom(s, p, true)| ==>
              (CharsFrom(s, p, false)[k] == 0x20 <==> CharsFrom(s, p, true)[k] == 0x20)
    decreases |s| - p
  {
    DecodersAgreeOnClasses(s, p);
    match NextFixed(s, p)
    case Overrun =>
    case Char(c, q) =>
      if c != 0 {
        WalksAgreeOnShape(s, q);
        var a, b := CharsFrom(s, p, false), CharsFrom(s, p, true);
        assert a == [Next(s, p).c] + CharsFrom(s, q, false);
        assert b == [c] + CharsFrom(s, q, true);
        forall k | 0 < k < |b| ensures a[k] == 0x20 <==> b[k] == 0x20 {
          assert a[k] == CharsFrom(s, q, false)[k - 1];
          assert b[k] == CharsFrom(s, q, true)[k - 1];
        }
      }
  }

  /** The string F0 90 81 80 NUL holds U+10040 alone; the typesetter reads it
      as U+10100. */
  lemma WalkFourByteWrong()
    ensures Chars([0xF0, 0x90, 0x81, 0x80, 0]) == [0x10100]
    ensures CharsFixed([0xF0, 0x90, 0x81, 0x80, 0]) == [0x10040]
  {
    var s: seq<byte> := [0xF0, 0x90, 0x81, 0x80, 0];
    assert CombineAsWritten(0, 0x10, 1, 0) == 0x10100;
    assert Decode(s, 0, false) == Char(0x10100, 4);
    assert Decode(s, 0, true) == Char(0x10040, 4);
    assert Decode(s, 4, false) == Char(0, 5);
    assert Decode(s, 4, true) == Char(0, 5);
  }

  /** The encoding of a codepoint sequence, one `Encode` after another. */
  function EncodeAll(cps: seq<int>): seq<byte>
    requires forall k :: 0 <= k < |cps| ==> 0 <= cps[k] < 0x110000
  {
    if cps == [] then [] else Encode(cps[0]) + EncodeAll(cps[1..])
  }

  /** One step of the walk: a non-zero codepoint is kept and the walk goes on
      from the cursor after it. */
  lemma CharsFromStep(s: seq<byte>, p: nat, c: int, q: nat, fixed: bool)
    requires Decode(s, p, fixed) == Char(c, q) && c != 0
    ensures CharsFrom(s, p, fixed) == [c] + CharsFrom(s, q, fixed)
  {
  }

  /** The walk ends at a NUL byte. */
  lemma CharsAtNul(s: seq<byte>, p: nat, fixed: bool)
    requires p < |s| && s[p] == 0
    ensures CharsFrom(s, p, fixed) == []
  {
    assert Decode(s, p, fixed) == Char(0, p + 1);
  }

  /** The buffer of `CharsOfEncoded`, regrouped around the first encoding. */
  lemma Regroup(pre: seq<byte>, e: seq<byte>, x: seq<byte>, post: seq<byte>)
    ensures pre + (e + x) + [0] + post == pre + e + (x + [0] + post)
    ensures pre + (e + x) + [0] + post == pre + e + x + [0] + post
  {
  }

  /** A string of non-NUL scalars, encoded and terminated by a NUL, decodes to
      exactly those scalars, whatever follows the NUL: up to U+10FFFF with the
      corrected decoder, below U+10000 with the one as written. */
  lemma {:induction false} CharsOfEncoded(pre: seq<byte>, cps: seq<int>, post: seq<byte>, fixed: bool)
    requires forall k :: 0 <= k < |cps| ==> 0 < cps[k] < 0x110000
    requires !fixed ==> forall k :: 0 <= k < |cps| ==> cps[k] < 0x10000
    ensures CharsFrom(pre + EncodeAll(cps) + [0] + post, |pre|, fixed) == cps
    decreases |cps|
  {
    if cps == [] {
      CharsAtNul(pre + EncodeAll(cps) + [0] + post, |pre|, fixed);
    } else {
      var c := cps[0];
      var tl := cps[1..];
      var e := Encode(c);
      var x := EncodeAll(tl);
      var tail := x + [0] + post;
      var s1 := pre + e + tail;
      assert EncodeAll(cps) == e + x;
      assert forall k :: 0 <= k < |tl| ==> tl[k] == cps[k + 1];
      Regroup(pre, e, x, post);
      assert pre + EncodeAll(cps) + [0] + post == s1 == pre + e + x + [0] + post;
      DecodeEncoded(pre, c, tail, fixed);
      CharsFromStep(s1, |pre|, c, |pre| + |e|, fixed);
      CharsOfEncoded(pre + e, tl, post, fixed);
      assert CharsFrom(s1, |pre + e|, fixed) == tl;
      assert cps == [c] + tl;
    }
  }

  /** Encoding a string of non-NUL scalars and terminating it with a NUL gives
      back exactly those scalars: every such string under the corrected
      decoder, and one without four-byte characters under `utf8` as written. */
  lemma CharsRoundTrip(cps: seq<int>, fixed: bool)
    requires forall k :: 0 <= k < |cps| ==> 0 < cps[k] < 0x110000
    requires !fixed ==> forall k :: 0 <= k < |cps| ==> cps[k] < 0x10000
    ensures CharsFrom(EncodeAll(cps) + [0], 0, fixed) == cps
  {
    var x := EncodeAll(cps);
    var s := x + [0];
    var empty: seq<byte> := [];
    assert empty + x == x;
    assert x + [0] + empty == s;
    CharsOfEncoded(empty, cps, empty, fixed);
  }
}
