/** The UTF-8 side of gb2312utf8table.c: the leading-byte macros, `length_utf8`
    and `utf2unicode`. Bytes are `bv8`; the decoded value is the C `unsigned int`
    UNICODE, a `bv32`. */
module Utf8 {
  import opened Wrappers

  /** UTF8_MAX: the size of the caller's UTF-8 buffer. */
  const Utf8Max: nat := 6

  const Utf8Mask2: bv8 := 0xE0
  const Utf8Mask3: bv8 := 0xF0
  const Utf8Mask4: bv8 := 0xF8

  /** REMOVE_R1: clear the lowest set bit. */
  function RemoveR1(c: bv8): (r: bv8)
    ensures c != 0 ==> r < c
    ensures r & c == r
    ensures c ^ r == c & (!c + 1)
  {
    c & (c - 1)
  }

  /** IS_UTF8_1: the top bit is zero. */
  predicate IsUtf8One(c: bv8): (b: bool)
    ensures b <==> c < 0x80
  {
    c & 0x80 == 0
  }

  /** IS_UTF8_N: the bits under `mask` equal the mask with its lowest bit cleared. */
  predicate IsUtf8N(c: bv8, mask: bv8) {
    c & mask == RemoveR1(mask)
  }

  /** The leading bytes each macro accepts: IS_UTF8_1 the bytes `0xxxxxxx`,
      IS_UTF8_2 `110xxxxx`, IS_UTF8_3 `1110xxxx` and IS_UTF8_4 `11110xxx`, so the
      four-byte test rejects 0xF8..0xFF. */
  lemma MacroRanges(c: bv8)
    ensures RemoveR1(Utf8Mask2) == 0xC0 && RemoveR1(Utf8Mask3) == 0xE0 && RemoveR1(Utf8Mask4) == 0xF0
    ensures IsUtf8One(c) <==> c < 0x80
    ensures IsUtf8N(c, Utf8Mask2) <==> 0xC0 <= c <= 0xDF
    ensures IsUtf8N(c, Utf8Mask3) <==> 0xE0 <= c <= 0xEF
    ensures IsUtf8N(c, Utf8Mask4) <==> 0xF0 <= c <= 0xF7
  {
  }

  /** `length_utf8`: the length announced by the leading byte `utf[0]`, checked in
      the order 1, 2, 3, 4; any other byte is the `err_sys` branch. */
  function LengthUtf8(utf: seq<bv8>): (r: Result<nat>)
    requires |utf| == Utf8Max
    ensures r == Ok(1) <==> utf[0] < 0x80
    ensures r == Ok(2) <==> 0xC0 <= utf[0] <= 0xDF
    ensures r == Ok(3) <==> 0xE0 <= utf[0] <= 0xEF
    ensures r == Ok(4) <==> 0xF0 <= utf[0] <= 0xF7
    ensures r.Err? <==> (0x80 <= utf[0] <= 0xBF || 0xF8 <= utf[0])
  {
    var c := utf[0];
    if IsUtf8One(c) then Ok(1)
    else if IsUtf8N(c, Utf8Mask2) then Ok(2)
    else if IsUtf8N(c, Utf8Mask3) then Ok(3)
    else if IsUtf8N(c, Utf8Mask4) then Ok(4)
    else Err(InvalidUtf8)
  }

  /** What the leading byte contributes in `utf2unicode`: the length and the
      payload left after the length bits are masked off (`c & ~UTF8_n_MASK`). */
  datatype Lead = Lead(len: nat, payload: bv32)

  function LeadOf(c: bv8): (r: Result<Lead>)
    ensures r.Err? <==> (0x80 <= c <= 0xBF || 0xF8 <= c)
    ensures r.Err? ==> r.error == InvalidUtf8
    ensures r.Ok? ==> 1 <= r.value.len <= 4
    ensures r == Ok(Lead(1, c as bv32)) <==> c < 0x80
    ensures r.Ok? && r.value.len == 2 ==> r.value.payload < 0x20
    ensures r.Ok? && r.value.len == 3 ==> r.value.payload < 0x10
    ensures r.Ok? && r.value.len == 4 ==> r.value.payload < 0x08
  {
    if IsUtf8One(c) then Ok(Lead(1, c as bv32))
    else if IsUtf8N(c, Utf8Mask2) then Ok(Lead(2, (c & !Utf8Mask2) as bv32))
    else if IsUtf8N(c, Utf8Mask3) then Ok(Lead(3, (c & !Utf8Mask3) as bv32))
    else if IsUtf8N(c, Utf8Mask4) then Ok(Lead(4, (c & !Utf8Mask4) as bv32))
    else Err(InvalidUtf8)
  }

  /** The low 6 bits of a continuation byte, as they land in the accumulator. */
  function Payload(b: bv8): bv32 {
    (b & 0x3F) as bv32
  }

  /** One turn of the loop: `uni = (uni << 6) | (*p & 0x3f)`. */
  function ShiftIn(uni: bv32, b: bv8): (r: bv32)
    ensures r & 0x3F == (b & 0x3F) as bv32
    ensures r >> 6 == uni & 0x03FF_FFFF
  {
    (uni << 6) | Payload(b)
  }

  /** The value of `uni` after the loop has shifted in the low 6 bits of each of `cont`. */
  function Accumulate(uni: bv32, cont: seq<bv8>): (r: bv32)
    ensures cont != [] ==> r & 0x3F == (cont[|cont| - 1] & 0x3F) as bv32
    decreases |cont|
  {
    if cont == [] then uni
    else Accumulate(ShiftIn(uni, cont[0]), cont[1..])
  }

  /** The value `utf2unicode` returns for a buffer: the lead byte itself for a
      one-byte sequence, otherwise the lead payload followed by the 6-bit payloads
      of the next `len - 1` bytes. */
  function Unicode(utf: seq<bv8>): (r: Result<bv32>)
    requires |utf| == Utf8Max
    ensures r.Err? <==> (0x80 <= utf[0] <= 0xBF || 0xF8 <= utf[0])
    ensures r.Err? ==> r.error == InvalidUtf8
    ensures utf[0] < 0x80 ==> r == Ok(utf[0] as bv32)
  {
    match LeadOf(utf[0])
    case Err(e) => Err(e)
    case Ok(lead) => Ok(Accumulate(lead.payload, utf[1..lead.len]))
  }

  /** The UTF8 buffer after the converter has written `written` into it: the
      first Utf8Max bytes written, then bytes the converter left alone, which are
      uninitialised in C and taken as zero here. */
  function Buffer(written: seq<bv8>): (utf: seq<bv8>)
    ensures |utf| == Utf8Max
    ensures forall i :: 0 <= i < |written| && i < Utf8Max ==> utf[i] == written[i]
  {
    if |written| >= Utf8Max then written[..Utf8Max]
    else written + seq(Utf8Max - |written|, _ => 0)
  }

  /** `utf2unicode`: the leading byte selects the length and the payload, then
      a loop shifts in the low 6 bits of each continuation byte. */
  method Utf2Unicode(utf: array<bv8>) returns (r: Result<bv32>)
    requires utf.Length == Utf8Max
    ensures r == Unicode(utf[..])
  {
    var c := utf[0];
    var uni: bv32;
    var len: nat;
    if IsUtf8One(c) {
      return Ok(c as bv32);
    } else if IsUtf8N(c, Utf8Mask2) {
      len := 2;
      uni := (c & !Utf8Mask2) as bv32;
    } else if IsUtf8N(c, Utf8Mask3) {
      len := 3;
      uni := (c & !Utf8Mask3) as bv32;
    } else if IsUtf8N(c, Utf8Mask4) {
      len := 4;
      uni := (c & !Utf8Mask4) as bv32;
    } else {
      return Err(InvalidUtf8);
    }
    ghost var payload := uni;
    assert Unicode(utf[..]) == Ok(Accumulate(payload, utf[1..len]));
    var p := 1;
    while p < len
      invariant 1 <= p <= len <= Utf8Max
      invariant Accumulate(uni, utf[p..len]) == Accumulate(payload, utf[1..len])
    {
      assert utf[p..len][0] == utf[p] && utf[p..len][1..] == utf[p + 1..len];
      uni := (uni << 6) | (utf[p] & 0x3F) as bv32;
      p := p + 1;
    }
    return Ok(uni);
  }

  /** Only the low 6 bits of each continuation byte reach the accumulator. */
  lemma {:induction false} AccumulateLowBits(uni: bv32, s: seq<bv8>, t: seq<bv8>)
    requires |s| == |t|
    requires forall i :: 0 <= i < |s| ==> s[i] & 0x3F == t[i] & 0x3F
    ensures Accumulate(uni, s) == Accumulate(uni, t)
    decreases |s|
  {
    if s != [] {
      AccumulateLowBits(ShiftIn(uni, s[0]), s[1..], t[1..]);
    }
  }

  /** `length_utf8` and `utf2unicode` run separate if-chains over the same
      macros; they accept the same leading bytes and choose the same length. */
  lemma LengthAgrees(utf: seq<bv8>)
    requires |utf| == Utf8Max
    ensures Unicode(utf).Ok? <==> LengthUtf8(utf).Ok?
    ensures LeadOf(utf[0]).Ok? <==> LengthUtf8(utf).Ok?
    ensures LeadOf(utf[0]).Ok? ==> LengthUtf8(utf) == Ok(LeadOf(utf[0]).value.len)
  {
  }

  /** The decoded value depends on the leading byte and on the low 6 bits of the
      next `len - 1` bytes only: neither the top two bits of a continuation byte
      (they are not checked to be `10`) nor any byte past the sequence matters. */
  lemma UnicodeDependsOnPayloadBits(utf: seq<bv8>, other: seq<bv8>, n: nat)
    requires |utf| == Utf8Max && |other| == Utf8Max
    requires LengthUtf8(utf) == Ok(n)
    requires other[0] == utf[0]
    requires forall i :: 1 <= i < n ==> other[i] & 0x3F == utf[i] & 0x3F
    ensures Unicode(other) == Unicode(utf)
  {
    if n > 1 {
      var lead := LeadOf(utf[0]).value;
      assert lead.len == n;
      forall i | 0 <= i < n - 1
        ensures utf[1..n][i] & 0x3F == other[1..n][i] & 0x3F
      {
        assert utf[1..n][i] == utf[i + 1] && other[1..n][i] == other[i + 1];
      }
      AccumulateLowBits(lead.payload, utf[1..n], other[1..n]);
    }
  }

  /** Bytes after index `len - 1` of the buffer never affect the result. */
  lemma UnicodeReadsLenBytes(utf: seq<bv8>, other: seq<bv8>, n: nat)
    requires |utf| == Utf8Max && |other| == Utf8Max
    requires LengthUtf8(utf) == Ok(n)
    requires other[..n] == utf[..n]
    ensures Unicode(other) == Unicode(utf)
  {
    forall i | 1 <= i < n
      ensures other[i] & 0x3F == utf[i] & 0x3F
    {
      assert other[i] == other[..n][i] && utf[i] == utf[..n][i];
    }
    UnicodeDependsOnPayloadBits(utf, other, n);
  }

  /** The value of an `n`-byte sequence laid out as section 3 of RFC 3629 lays
      it out: the lead byte's free bits, then six bits per continuation byte. */
  function Layout(utf: seq<bv8>, n: nat): bv32
    requires |utf| == Utf8Max && 1 <= n <= 4
  {
    if n == 1 then utf[0] as bv32
    else if n == 2 then Layout2(utf[0], utf[1])
    else if n == 3 then Layout3(utf[0], utf[1], utf[2])
    else Layout4(utf[0], utf[1], utf[2], utf[3])
  }

  function Layout2(c: bv8, a: bv8): bv32 {
    ((c & 0x1F) as bv32 << 6) | Payload(a)
  }

  function Layout3(c: bv8, a: bv8, b: bv8): bv32 {
    ((c & 0x0F) as bv32 << 12) | (Payload(a) << 6) | Payload(b)
  }

  function Layout4(c: bv8, a: bv8, b: bv8, d: bv8): bv32 {
    ((c & 0x07) as bv32 << 18) | (Payload(a) << 12) | (Payload(b) << 6) | Payload(d)
  }

  /** The first scalar that no longer fits in an `n`-byte sequence: 2^7, 2^11, 2^16, 2^21. */
  function Capacity(n: nat): bv32
    requires 1 <= n <= 4
  {
    if n == 1 then 0x80 else if n == 2 then 0x800 else if n == 3 then 0x1_0000 else 0x20_0000
  }

  /** One, two and three turns of the loop, written out. */
  lemma AccumulateOne(p: bv32, a: bv8)
    ensures Accumulate(p, [a]) == ShiftIn(p, a)
  {
    assert [a][1..] == [];
  }

  lemma AccumulateTwo(p: bv32, a: bv8, b: bv8)
    ensures Accumulate(p, [a, b]) == ShiftIn(ShiftIn(p, a), b)
  {
    assert [a, b][1..] == [b];
    AccumulateOne(ShiftIn(p, a), b);
  }

  lemma AccumulateThree(p: bv32, a: bv8, b: bv8, c: bv8)
    ensures Accumulate(p, [a, b, c]) == ShiftIn(ShiftIn(ShiftIn(p, a), b), c)
  {
    assert [a, b, c][1..] == [b, c];
    AccumulateTwo(ShiftIn(p, a), b, c);
  }

  /** `utf2unicode` computes the RFC 3629 bit layout for the length its leading
      byte announces, so its result is below 2^7, 2^11, 2^16 or 2^21 and the 32-bit
      accumulator never overflows. */
  lemma UnicodeIsLayout(utf: seq<bv8>, n: nat)
    requires |utf| == Utf8Max
    requires LengthUtf8(utf) == Ok(n)
    ensures Unicode(utf) == Ok(Layout(utf, n))
    ensures Layout(utf, n) < Capacity(n)
  {
    var c := utf[0];
    if n == 2 {
      assert utf[1..2] == [utf[1]];
      AccumulateOne((c & !Utf8Mask2) as bv32, utf[1]);
      TwoByteBits(c, utf[1]);
    } else if n == 3 {
      assert utf[1..3] == [utf[1], utf[2]];
      AccumulateTwo((c & !Utf8Mask3) as bv32, utf[1], utf[2]);
      ThreeByteBits(c, utf[1], utf[2]);
    } else if n == 4 {
      assert utf[1..4] == [utf[1], utf[2], utf[3]];
      AccumulateThree((c & !Utf8Mask4) as bv32, utf[1], utf[2], utf[3]);
      FourByteBits(c, utf[1], utf[2], utf[3]);
    }
  }

  lemma TwoByteBits(c: bv8, a: bv8)
    ensures var v := ShiftIn((c & !Utf8Mask2) as bv32, a);
      v == Layout2(c, a) && v < 0x800
  {
  }

  lemma ThreeByteBits(c: bv8, a: bv8, b: bv8)
    ensures var v := ShiftIn(ShiftIn((c & !Utf8Mask3) as bv32, a), b);
      v == Layout3(c, a, b) && v < 0x1_0000
  {
  }

  lemma FourByteBits(c: bv8, a: bv8, b: bv8, d: bv8)
    ensures var v := ShiftIn(ShiftIn(ShiftIn((c & !Utf8Mask4) as bv32, a), b), d);
      v == Layout4(c, a, b, d) && v < 0x20_0000
  {
  }

  /** Every value `utf2unicode` returns fits in 21 bits. */
  lemma UnicodeBelow21Bits(utf: seq<bv8>)
    requires |utf| == Utf8Max
    ensures Unicode(utf).Ok? ==> Unicode(utf).value < 0x20_0000
  {
    if LengthUtf8(utf).Ok? {
      UnicodeIsLayout(utf, LengthUtf8(utf).value);
    }
  }

  /** A one-byte sequence decodes to the leading byte's value unchanged. */
  lemma SingleByteUnchanged(utf: seq<bv8>)
    requires |utf| == Utf8Max && utf[0] < 0x80
    ensures Unicode(utf) == Ok(utf[0] as bv32)
  {
  }

  /** Section 3 of RFC 3629: the `n`-byte sequence that carries the scalar `u`. */
  function EncodeScalar(u: bv32, n: nat): (s: seq<bv8>)
    requires 1 <= n <= 4 && u < Capacity(n)
    ensures |s| == n
  {
    if n == 1 then [u as bv8]
    else if n == 2 then [0xC0 | (u >> 6) as bv8, 0x80 | (u & 0x3F) as bv8]
    else if n == 3 then
      [0xE0 | (u >> 12) as bv8, 0x80 | ((u >> 6) & 0x3F) as bv8, 0x80 | (u & 0x3F) as bv8]
    else
      [0xF0 | (u >> 18) as bv8, 0x80 | ((u >> 12) & 0x3F) as bv8,
       0x80 | ((u >> 6) & 0x3F) as bv8, 0x80 | (u & 0x3F) as bv8]
  }

  /** Decoding inverts the RFC 3629 layout: the encoded sequence announces its
      own length, and `utf2unicode` gives the scalar back. */
  lemma {:induction false} DecodeEncode(u: bv32, n: nat)
    requires 1 <= n <= 4 && u < Capacity(n)
    ensures LengthUtf8(Buffer(EncodeScalar(u, n))) == Ok(n)
    ensures Unicode(Buffer(EncodeScalar(u, n))) == Ok(u)
  {
    var s := EncodeScalar(u, n);
    var utf := Buffer(s);
    if n == 1 {
      assert utf[0] == u as bv8;
    } else if n == 2 {
      assert utf[0] == s[0] && utf[1] == s[1];
      EncodeTwoBits(u);
    } else if n == 3 {
      assert utf[0] == s[0] && utf[1] == s[1] && utf[2] == s[2];
      EncodeThreeBits(u);
    } else {
      assert utf[0] == s[0] && utf[1] == s[1] && utf[2] == s[2] && utf[3] == s[3];
      EncodeFourBits(u);
    }
    UnicodeIsLayout(utf, n);
  }

  lemma EncodeTwoBits(u: bv32)
    requires u < 0x800
    ensures var s := EncodeScalar(u, 2);
      0xC0 <= s[0] <= 0xDF && Layout2(s[0], s[1]) == u
  {
  }

  lemma EncodeThreeBits(u: bv32)
    requires u < 0x1_0000
    ensures var s := EncodeScalar(u, 3);
      0xE0 <= s[0] <= 0xEF && Layout3(s[0], s[1], s[2]) == u
  {
  }

  lemma EncodeFourBits(u: bv32)
    requires u < 0x20_0000
    ensures var s := EncodeScalar(u, 4);
      0xF0 <= s[0] <= 0xF7 && Layout4(s[0], s[1], s[2], s[3]) == u
  {
  }

  /** Conversely, a sequence whose continuation bytes are all `10xxxxxx` is the
      RFC 3629 encoding of the value it decodes to. */
  lemma {:induction false} EncodeDecode(utf: seq<bv8>, n: nat)
    requires |utf| == Utf8Max
    requires LengthUtf8(utf) == Ok(n)
    requires forall i :: 1 <= i < n ==> utf[i] & 0xC0 == 0x80
    ensures Unicode(utf).Ok? && Unicode(utf).value < Capacity(n)
    ensures EncodeScalar(Unicode(utf).value, n) == utf[..n]
  {
    UnicodeIsLayout(utf, n);
    if n == 1 {
      assert utf[..1] == [utf[0]];
    } else if n == 2 {
      LayoutTwo(utf);
    } else if n == 3 {
      LayoutThree(utf);
    } else {
      LayoutFour(utf);
    }
  }

  lemma LayoutTwo(utf: seq<bv8>)
    requires |utf| == Utf8Max && 0xC0 <= utf[0] <= 0xDF && utf[1] & 0xC0 == 0x80
    ensures EncodeScalar(Layout(utf, 2), 2) == utf[..2]
  {
    assert utf[..2] == [utf[0], utf[1]];
    LayoutTwoBits(utf[0], utf[1]);
  }

  lemma LayoutThree(utf: seq<bv8>)
    requires |utf| == Utf8Max && 0xE0 <= utf[0] <= 0xEF
    requires utf[1] & 0xC0 == 0x80 && utf[2] & 0xC0 == 0x80
    ensures EncodeScalar(Layout(utf, 3), 3) == utf[..3]
  {
    assert utf[..3] == [utf[0], utf[1], utf[2]];
    LayoutThreeBits(utf[0], utf[1], utf[2]);
  }

  lemma LayoutFour(utf: seq<bv8>)
    requires |utf| == Utf8Max && 0xF0 <= utf[0] <= 0xF7
    requires utf[1] & 0xC0 == 0x80 && utf[2] & 0xC0 == 0x80 && utf[3] & 0xC0 == 0x80
    ensures EncodeScalar(Layout(utf, 4), 4) == utf[..4]
  {
    assert utf[..4] == [utf[0], utf[1], utf[2], utf[3]];
    LayoutFourBits(utf[0], utf[1], utf[2], utf[3]);
  }

  lemma LayoutTwoBits(c: bv8, a: bv8)
    requires 0xC0 <= c <= 0xDF && a & 0xC0 == 0x80
    ensures Layout2(c, a) < 0x800 && EncodeScalar(Layout2(c, a), 2) == [c, a]
  {
  }

  lemma LayoutThreeBits(c: bv8, a: bv8, b: bv8)
    requires 0xE0 <= c <= 0xEF && a & 0xC0 == 0x80 && b & 0xC0 == 0x80
    ensures Layout3(c, a, b) < 0x1_0000 && EncodeScalar(Layout3(c, a, b), 3) == [c, a, b]
  {
  }

  lemma LayoutFourBits(c: bv8, a: bv8, b: bv8, d: bv8)
    requires 0xF0 <= c <= 0xF7 && a & 0xC0 == 0x80 && b & 0xC0 == 0x80 && d & 0xC0 == 0x80
    ensures Layout4(c, a, b, d) < 0x20_0000
    ensures EncodeScalar(Layout4(c, a, b, d), 4) == [c, a, b, d]
  {
  }

  /** The example of the program's header: U+554A, 21834, is `e5958a`. */
  lemma Example21834()
    ensures EncodeScalar(21834, 3) == [0xE5, 0x95, 0x8A]
    ensures Unicode(Buffer([0xE5, 0x95, 0x8A])) == Ok(21834)
    ensures Unicode(Buffer([0x41])) == Ok(65)
  {
    DecodeEncode(21834, 3);
  }
}
