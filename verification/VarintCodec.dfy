/** LEB128 variable-length integers and the message frame around them, on byte buffers. */
module VarintCodec {
  import opened Arithmetic
  import opened Options

  type Byte = b: nat | b < 0x100
  type Word = v: nat | v < 0x1_0000_0000_0000_0000

  const MAX_VARINT_BYTES := 10
  const LENGTH_RANGE := 0x1_0000_0000

  datatype Message = Message(uid: Word, payload: seq<Byte>)
  datatype Varint = Varint(value: Word, used: nat)

  // ---------------------------------------------------------------- the two directions

  /** Seven bits a byte, lowest first; the high bit says that more follow. */
  function Encode(v: nat): (s: seq<Byte>)
    ensures s != []
  {
    if v < 128 then [v] else [v % 128 + 128] + Encode(v / 128)
  }

  /** 128 to the power `k`. */
  function Weight(k: nat): (w: nat)
    ensures w > 0
  {
    if k == 0 then 1 else 128 * Weight(k - 1)
  }

  /** The number that the low seven bits of the first `k` bytes make, lowest first. */
  function Value(s: seq<Byte>, k: nat): nat
    requires k <= |s|
  {
    if k == 0 then 0 else Value(s, k - 1) + (s[k - 1] % 128) * Weight(k - 1)
  }

  /** The first byte without a continuation bit is byte `i`, among the first ten, and a tenth byte is at most one. */
  ghost predicate EndsAt(s: seq<Byte>, i: nat) {
    && i < |s| && i < MAX_VARINT_BYTES && s[i] < 128
    && (forall j :: 0 <= j < i ==> s[j] >= 128)
    && (i == MAX_VARINT_BYTES - 1 ==> s[i] <= 1)
  }

  /** The stream begins with a varint of `used` bytes for `value`. */
  ghost predicate Reads(s: seq<Byte>, value: nat, used: nat) {
    used > 0 && EndsAt(s, used - 1) && value == Value(s, used)
  }

  // ---------------------------------------------------------------- arithmetic of the encoding

  lemma {:induction false} ValueBound(s: seq<Byte>, k: nat)
    requires k <= |s|
    ensures Value(s, k) < Weight(k)
    decreases k
  {
    if k > 0 {
      ValueBound(s, k - 1);
      var w, d := Weight(k - 1), s[k - 1] % 128;
      MulOrder(w, 128, d);
      assert w * 128 == Weight(k) && w * d == d * w;
    }
  }

  lemma {:induction false} ValueFromFront(s: seq<Byte>, k: nat)
    requires 0 < k <= |s|
    ensures Value(s, k) == s[0] % 128 + 128 * Value(s[1..], k - 1)
    decreases k
  {
    if k == 1 {
      assert Weight(0) == 1 && Value(s, 0) == 0;
    } else {
      ValueFromFront(s, k - 1);
      var d, w := s[k - 1] % 128, Weight(k - 2);
      assert s[1..][k - 2] == s[k - 1];
      assert d * (128 * w) == 128 * (d * w);
    }
  }

  /** As many bytes as the number has digits to base 128. */
  lemma {:induction false} EncodeLength(v: nat, k: nat)
    requires k > 0
    ensures |Encode(v)| <= k <==> v < Weight(k)
    decreases k
  {
    if k == 1 {
      assert Weight(1) == 128 * Weight(0);
    } else if v >= 128 {
      EncodeLength(v / 128, k - 1);
    } else {
      assert Weight(k) == 128 * Weight(k - 1);
    }
  }

  /** What follows an encoding's first byte is the encoding of the rest of the number. */
  lemma EncodeTail(v: nat, rest: seq<Byte>)
    requires v >= 128
    ensures var s := Encode(v) + rest;
      s[0] == v % 128 + 128 && s[1..] == Encode(v / 128) + rest && |Encode(v)| == 1 + |Encode(v / 128)|
  {
  }

  lemma {:induction false} EncodeValue(v: nat, rest: seq<Byte>)
    ensures Value(Encode(v) + rest, |Encode(v)|) == v
    decreases v
  {
    var s, n := Encode(v) + rest, |Encode(v)|;
    ValueFromFront(s, n);
    if v >= 128 {
      EncodeTail(v, rest);
      EncodeValue(v / 128, rest);
    } else {
      assert Value(s[1..], 0) == 0;
    }
  }

  lemma {:induction false} EncodeEnds(v: nat, rest: seq<Byte>)
    ensures var s, n := Encode(v) + rest, |Encode(v)|;
      s[n - 1] < 128 && forall j :: 0 <= j < n - 1 ==> s[j] >= 128
    decreases v
  {
    if v >= 128 {
      EncodeTail(v, rest);
      EncodeEnds(v / 128, rest);
      var s := Encode(v) + rest;
      assert forall j :: 0 < j < |s| ==> s[j] == s[1..][j - 1];
    }
  }

  /** Decoding undoes encoding, whatever follows; only the last byte has no continuation bit. */
  lemma EncodeDecodes(v: nat, rest: seq<Byte>)
    ensures var s, n := Encode(v) + rest, |Encode(v)|;
      && Value(s, n) == v && s[n - 1] < 128
      && forall j :: 0 <= j < n - 1 ==> s[j] >= 128
  {
    EncodeValue(v, rest);
    EncodeEnds(v, rest);
  }

  /** Byte `i` is digit `i` to base 128, lowest first, with the high bit on all but the last. */
  lemma {:induction false} EncodeDigits(v: nat, i: nat)
    requires i < |Encode(v)|
    ensures Encode(v)[i] == v / Weight(i) % 128 + (if i < |Encode(v)| - 1 then 128 else 0)
    decreases i
  {
    if i > 0 {
      assert Encode(v) == [v % 128 + 128] + Encode(v / 128);
      EncodeDigits(v / 128, i - 1);
      DividedAgain(v, Weight(i - 1));
    } else {
      assert Weight(0) == 1;
    }
  }

  lemma JoinedQuotient(w: nat, q: nat, r: nat, q': nat, r': nat)
    requires r < 128 && q == w * q' + r' && r' < w
    ensures (128 * q + r) / (128 * w) == q'
  {
    assert 128 * (w * q') == (128 * w) * q';
    ModUnique(128 * q + r, 128 * w, q', 128 * r' + r);
  }

  lemma DividedAgain(v: nat, w: nat)
    requires w > 0
    ensures v / 128 / w == v / (128 * w)
  {
    var q := v / 128;
    JoinedQuotient(w, q, v % 128, q / w, q % w);
  }

  /** Below twice a power of 128, the last digit is at most one. */
  lemma {:induction false} LastDigit(v: nat, k: nat)
    requires v < 2 * Weight(k)
    ensures |Encode(v)| <= k + 1
    ensures |Encode(v)| == k + 1 ==> Encode(v)[k] <= 1
    decreases k
  {
    if k > 0 && v >= 128 {
      LastDigit(v / 128, k - 1);
      assert Encode(v) == [v % 128 + 128] + Encode(v / 128);
    }
  }

  lemma WordWeights()
    ensures Weight(9) == 0x8000_0000_0000_0000
  {
    assert Weight(1) == 0x80 && Weight(2) == 0x4000 && Weight(3) == 0x20_0000;
    assert Weight(4) == 0x1000_0000 && Weight(5) == 0x8_0000_0000 && Weight(6) == 0x400_0000_0000;
    assert Weight(7) == 0x2_0000_0000_0000 && Weight(8) == 0x100_0000_0000_0000;
  }

  // ---------------------------------------------------------------- what the codec promises

  /** The round trip: one to ten bytes, read back in full whatever follows them. */
  lemma VarintRoundTrip(v: Word, rest: seq<Byte>)
    ensures 1 <= |Encode(v)| <= MAX_VARINT_BYTES
    ensures Reads(Encode(v) + rest, v, |Encode(v)|)
  {
    WordWeights();
    LastDigit(v, 9);
    EncodeDecodes(v, rest);
  }

  /** A stream begins with at most one varint, and it is a 64-bit number. */
  lemma ReadsOnce(s: seq<Byte>, v: nat, k: nat, v': nat, k': nat)
    requires Reads(s, v, k) && Reads(s, v', k')
    ensures v == v' && k == k' && v < 0x1_0000_0000_0000_0000
  {
    assert EndsAt(s, k - 1) && EndsAt(s, k' - 1);
    ReadIsWord(s, k);
  }

  lemma ReadIsWord(s: seq<Byte>, k: nat)
    requires k > 0 && EndsAt(s, k - 1)
    ensures Value(s, k) < 0x1_0000_0000_0000_0000
  {
    WordWeights();
    ValueBound(s, k);
    if k == 10 {
      ValueBound(s, 9);
    } else {
      WeightGrows(k, 9);
    }
  }

  lemma {:induction false} WeightGrows(i: nat, j: nat)
    requires i <= j
    ensures Weight(i) <= Weight(j)
    decreases j - i
  {
    if i < j { WeightGrows(i, j - 1); }
  }

  /** No accepted encoding is shorter than the one written. */
  lemma EncodingIsShortest(s: seq<Byte>, v: nat, k: nat)
    requires Reads(s, v, k)
    ensures |Encode(v)| <= k
  {
    ValueBound(s, k);
    EncodeLength(v, k);
  }

  /** Nothing can be read from a strict prefix of an encoding. */
  lemma PrefixIsRejected(v: Word, n: nat, u: nat, k: nat)
    requires n < |Encode(v)|
    ensures !Reads(Encode(v)[..n], u, k)
  {
    EncodeDecodes(v, []);
    assert Encode(v) + [] == Encode(v);
  }

  // ---------------------------------------------------------------- machine words

  /** The code's masks and shifts are remainders and quotients. */
  lemma MaskAndShift(v: bv64)
    ensures v & 0x7F == v % 128 && v >> 7 == v / 128
  {
  }

  /** The code's shifted OR adds seven bits that are still free, and of a tenth byte only one bit. */
  lemma OrAdds(r: bv64, b: bv64)
    requires b < 0x80
    ensures r < 0x1 ==> r | b == r + b
    ensures r < 0x80 ==> r | (b << 7) == r + (b << 7)
    ensures r < 0x4000 ==> r | (b << 14) == r + (b << 14)
    ensures r < 0x20_0000 ==> r | (b << 21) == r + (b << 21)
    ensures r < 0x1000_0000 ==> r | (b << 28) == r + (b << 28)
    ensures r < 0x8_0000_0000 ==> r | (b << 35) == r + (b << 35)
    ensures r < 0x400_0000_0000 ==> r | (b << 42) == r + (b << 42)
    ensures r < 0x2_0000_0000_0000 ==> r | (b << 49) == r + (b << 49)
    ensures r < 0x100_0000_0000_0000 ==> r | (b << 56) == r + (b << 56)
    ensures r < 0x8000_0000_0000_0000 && b <= 1 ==> r | (b << 63) == r + (b << 63)
  {
  }

  // ---------------------------------------------------------------- varint loops

  method VarintLen(v0: Word) returns (n: nat)
    ensures n == |Encode(v0)|
  {
    var v: nat := v0 / 128;
    n := 1;
    while v != 0
      invariant |Encode(v0)| == if v == 0 then n else n + |Encode(v)|
    {
      v, n := v / 128, n + 1;
    }
  }

  /** The buffer after writing `s` into it at `at`. */
  function Patched(before: seq<Byte>, at: nat, s: seq<Byte>): seq<Byte>
    requires at + |s| <= |before|
  {
    before[..at] + s + before[at + |s|..]
  }

  lemma PatchByte(before: seq<Byte>, at: nat, s: seq<Byte>, b: Byte)
    requires at + |s| + 1 <= |before|
    ensures Patched(before, at, s)[at + |s| := b] == Patched(before, at, s + [b])
  {
  }

  method WriteVarint(v0: Word, out: array<Byte>, at: nat) returns (n: nat)
    requires at + |Encode(v0)| <= out.Length
    modifies out
    ensures n == |Encode(v0)| && out[..] == Patched(old(out[..]), at, Encode(v0))
  {
    ghost var before := out[..];
    ghost var s: seq<Byte> := [];
    var v: nat := v0;
    n := 0;
    var more := true;
    assert [] + Encode(v0) == Encode(v0);
    while more
      invariant n == |s| && at + |s| <= |before| && out[..] == Patched(before, at, s)
      invariant Encode(v0) == if more then s + Encode(v) else s
      decreases more, v
    {
      ghost var v' := v;
      var b := v % 128;
      v := v / 128;
      if v != 0 { b := b + 128; }
      PatchByte(before, at, s, b);
      out[at + n] := b;
      n := n + 1;
      more := v != 0;
      assert s + Encode(v') == if more then (s + [b]) + Encode(v) else s + [b];
      s := s + [b];
    }
  }

  /** Reads what the bytes from `from` on begin with; `None` for malformed and truncated input. */
  method ReadVarint(buf: array<Byte>, from: nat) returns (r: Option<Varint>)
    requires from <= buf.Length
    ensures r.Some? ==> Reads(buf[from..], r.value.value, r.value.used)
    ensures r.None? ==> forall v, k :: !Reads(buf[from..], v, k)
  {
    ghost var s := buf[from..];
    var result := 0;
    var i := 0;
    while i < buf.Length - from
      invariant i <= |s| && result == Value(s, i)
      invariant forall j :: 0 <= j < i ==> s[j] >= 128
      invariant i < MAX_VARINT_BYTES
    {
      var b := buf[from + i];
      assert s[i] == b;
      if i == MAX_VARINT_BYTES - 1 {
        if b > 1 { return None; }
        ReadIsWord(s, i + 1);
        return Some(Varint(result + b * Weight(9), i + 1));
      }
      result := result + (b % 128) * Weight(i);
      if b < 128 {
        ReadIsWord(s, i + 1);
        return Some(Varint(result, i + 1));
      }
      i := i + 1;
    }
    return None;
  }

  /** The number of bytes written, or 0 and an untouched buffer when there is no room. */
  method EncodeVarint(v: Word, out: array<Byte>) returns (n: nat)
    modifies out
    ensures if |Encode(v)| <= out.Length
      then n == |Encode(v)| && out[..] == Encode(v) + old(out[..])[n..]
      else n == 0 && out[..] == old(out[..])
  {
    var need := VarintLen(v);
    if need > out.Length { return 0; }
    n := WriteVarint(v, out, 0);
    assert old(out[..])[..0] + Encode(v) == Encode(v);
  }

  method DecodeVarint(buf: array<Byte>) returns (value: Option<Word>)
    ensures value.Some? ==> exists k :: Reads(buf[..], value.value, k)
    ensures value.None? ==> forall v, k :: !Reads(buf[..], v, k)
  {
    assert buf[0..] == buf[..];
    var r := ReadVarint(buf, 0);
    value := if r.None? then None else Some(r.value.value);
  }

  // ---------------------------------------------------------------- frames

  function LittleEndian(a: nat, b: nat, c: nat, d: nat): nat {
    a + 0x100 * b + 0x1_0000 * c + 0x100_0000 * d
  }

  lemma DividedTwice(p: nat)
    ensures p / 0x1_0000 == p / 0x100 / 0x100
  {
  }

  lemma DividedThrice(p: nat)
    ensures p / 0x100_0000 == p / 0x100 / 0x100 / 0x100
  {
  }

  lemma DigitsOf(p: nat)
    requires p < LENGTH_RANGE
    ensures LittleEndian(p % 256, p / 0x100 % 256, p / 0x1_0000 % 256, p / 0x100_0000 % 256) == p
  {
    DividedTwice(p);
    DividedThrice(p);
    var q := p / 0x100;
    var r := q / 0x100;
    var t := r / 0x100;
    assert p == p % 256 + 0x100 * q && q == q % 256 + 0x100 * r && r == r % 256 + 0x100 * t && t < 256;
  }

  /** The length field: four bytes, lowest first, of the length modulo 2^32. */
  function LengthField(n: nat): (s: seq<Byte>)
    ensures |s| == 4
  {
    var p := Low32(n);
    [p % 256, p / 0x100 % 256, p / 0x1_0000 % 256, p / 0x100_0000 % 256]
  }

  function FieldLength(s: seq<Byte>): nat
    requires |s| >= 4
  {
    LittleEndian(s[0], s[1], s[2], s[3])
  }

  lemma LengthRoundTrip(n: nat, rest: seq<Byte>)
    ensures FieldLength(LengthField(n) + rest) == Low32(n)
  {
    DigitsOf(Low32(n));
  }

  function Frame(m: Message): seq<Byte> {
    LengthField(|m.payload|) + Encode(m.uid) + m.payload
  }

  lemma LowByte(n: nat, d: nat, k: nat)
    requires d > 0 && d * (256 * k) == 0x1_0000_0000
    ensures Low32(n) / d % 256 == n / d % 256
  {
    var q, r := n / 0x1_0000_0000, Low32(n);
    var x, y := r / d, r % d;
    assert n == d * (256 * k) * q + r && r == d * x + y;
    assert d * (256 * k) * q == d * (256 * (k * q));
    ModUnique(n, d, 256 * (k * q) + x, y);
    ModUnique(256 * (k * q) + x, 256, k * q + x / 256, x % 256);
  }

  /** The layout: four bytes of length, lowest first, the uid as a varint, the payload. */
  lemma FrameBytes(m: Message)
    ensures var s, n := Frame(m), |m.payload|;
      && |s| >= 4
      && s[0] == n % 256 && s[1] == n / 256 % 256 && s[2] == n / 0x1_0000 % 256 && s[3] == n / 0x100_0000 % 256
      && s[4..] == Encode(m.uid) + m.payload
  {
    LowByte(|m.payload|, 1, 0x100_0000);
    LowByte(|m.payload|, 0x100, 0x1_0000);
    LowByte(|m.payload|, 0x1_0000, 0x100);
    LowByte(|m.payload|, 0x100_0000, 1);
    assert Frame(m)[4..] == Encode(m.uid) + m.payload;
  }

  /** The stream begins with a frame of this message, by the length its header declares. */
  ghost predicate FrameReads(s: seq<Byte>, m: Message) {
    |s| >= 4 && exists k: nat :: FrameReadsAt(s, m, k)
  }

  ghost predicate FrameReadsAt(s: seq<Byte>, m: Message, k: nat)
    requires |s| >= 4
  {
    && Reads(s[4..], m.uid, k)
    && 4 + k + FieldLength(s) <= |s|
    && m.payload == s[4 + k..4 + k + FieldLength(s)]
  }

  /** A frame begins with its header and its uid, wherever it is cut behind them. */
  lemma FrameHead(m: Message, rest: seq<Byte>)
    ensures var s := Frame(m) + rest;
      && |s| >= 4 && FieldLength(s) == Low32(|m.payload|)
      && s[4..] == Encode(m.uid) + (m.payload + rest)
      && s[4 + |Encode(m.uid)|..] == m.payload + rest
  {
    var s := Frame(m) + rest;
    assert s == LengthField(|m.payload|) + (Encode(m.uid) + (m.payload + rest));
    LengthRoundTrip(|m.payload|, Encode(m.uid) + (m.payload + rest));
    assert s[4..] == Encode(m.uid) + (m.payload + rest);
    assert s[4..][|Encode(m.uid)|..] == m.payload + rest;
    assert s[4..][|Encode(m.uid)|..] == s[4 + |Encode(m.uid)|..];
  }

  /** What is read from a frame: the uid, and the payload up to its length modulo 2^32. */
  lemma FrameGives(m: Message, rest: seq<Byte>, m': Message)
    ensures FrameReads(Frame(m) + rest, m') <==>
            m' == Message(m.uid, m.payload[..Low32(|m.payload|)])
  {
    var s, k, n := Frame(m) + rest, |Encode(m.uid)|, Low32(|m.payload|);
    FrameHead(m, rest);
    VarintRoundTrip(m.uid, m.payload + rest);
    assert s[4 + k..4 + k + n] == s[4 + k..][..n] == m.payload[..n];
    var cut := Message(m.uid, m.payload[..n]);
    assert FrameReadsAt(s, cut, k);
    if FrameReads(s, m') {
      var k' :| FrameReadsAt(s, m', k');
      ReadsOnce(s[4..], m.uid, k, m'.uid, k');
    }
  }

  /** A frame is read back as the message it was made of, and as no other, exactly when its length fits 32 bits. */
  lemma FrameRoundTripIff(m: Message, rest: seq<Byte>)
    ensures |m.payload| < LENGTH_RANGE <==> FrameReads(Frame(m) + rest, m)
    ensures |m.payload| < LENGTH_RANGE ==> forall m' :: FrameReads(Frame(m) + rest, m') ==> m' == m
  {
    var n := Low32(|m.payload|);
    FrameGives(m, rest, m);
    if |m.payload| < LENGTH_RANGE {
      assert m.payload[..n] == m.payload;
      forall m' | FrameReads(Frame(m) + rest, m') ensures m' == m {
        FrameGives(m, rest, m');
      }
    } else {
      assert |m.payload[..n]| < |m.payload|;
    }
  }

  /** However an encoding with something behind it is cut, only the whole encoding can be read. */
  lemma CutReads(u: Word, tail: seq<Byte>, n: nat, v: nat, k: nat)
    requires n <= |Encode(u)| + |tail| && Reads((Encode(u) + tail)[..n], v, k)
    ensures k == |Encode(u)| <= n
  {
    var uid := Encode(u);
    if n < |uid| {
      assert (uid + tail)[..n] == uid[..n];
      PrefixIsRejected(u, n, v, k);
    } else {
      assert (uid + tail)[..n] == uid + tail[..n - |uid|];
      VarintRoundTrip(u, tail[..n - |uid|]);
      ReadsOnce(uid + tail[..n - |uid|], u, |uid|, v, k);
    }
  }

  /** Every strict prefix of a frame is rejected, as long as its length fits 32 bits. */
  lemma FramePrefixRejected(m: Message, n: nat, m': Message)
    requires n < |Frame(m)| && |m.payload| < LENGTH_RANGE
    ensures !FrameReads(Frame(m)[..n], m')
  {
    var s, cut := Frame(m), Frame(m)[..n];
    FrameHead(m, []);
    assert s + [] == s && m.payload + [] == m.payload;
    if n >= 4 {
      assert cut[4..] == (Encode(m.uid) + m.payload)[..n - 4];
      assert FieldLength(cut) == FieldLength(s) == |m.payload|;
      forall k: nat | Reads(cut[4..], m'.uid, k) ensures k == |Encode(m.uid)| {
        CutReads(m.uid, m.payload, n - 4, m'.uid, k);
      }
    }
  }

  method FrameSize(m: Message) returns (n: nat)
    ensures n == |Frame(m)|
  {
    var uid := VarintLen(m.uid);
    n := 4 + uid + |m.payload|;
  }

  /** The frame, or 0 and an untouched buffer when there is no room. */
  method EncodeFrame(m: Message, out: array<Byte>) returns (n: nat)
    modifies out
    ensures if |Frame(m)| <= out.Length
      then n == |Frame(m)| && out[..] == Patched(old(out[..]), 0, Frame(m))
      else n == 0 && out[..] == old(out[..])
  {
    var total := FrameSize(m);
    if total > out.Length { return 0; }
    ghost var before := out[..];
    WriteLength(|m.payload|, out);
    var used := WriteVarint(m.uid, out, 4);
    var p := 4 + used;
    ghost var head := LengthField(|m.payload|) + Encode(m.uid);
    HeaderPatched(LengthField(|m.payload|), Encode(m.uid), before);
    for i := 0 to |m.payload|
      invariant out[..] == Patched(before, 0, head + m.payload[..i])
    {
      PatchByte(before, 0, head + m.payload[..i], m.payload[i]);
      assert head + m.payload[..i] + [m.payload[i]] == head + m.payload[..i + 1];
      out[p + i] := m.payload[i];
    }
    assert m.payload[..|m.payload|] == m.payload;
    return total;
  }

  method WriteLength(n: nat, out: array<Byte>)
    requires out.Length >= 4
    modifies out
    ensures out[..] == Patched(old(out[..]), 0, LengthField(n))
  {
    var plen := Low32(n);
    out[0] := plen % 256;
    out[1] := plen / 0x100 % 256;
    out[2] := plen / 0x1_0000 % 256;
    out[3] := plen / 0x100_0000 % 256;
    assert out[..4] == LengthField(n);
    assert out[..] == out[..4] + out[4..];
  }

  lemma HeaderPatched(header: seq<Byte>, uid: seq<Byte>, before: seq<Byte>)
    requires |header| + |uid| <= |before|
    ensures Patched(Patched(before, 0, header), |header|, uid) == Patched(before, 0, (header + uid) + [])
  {
  }

  method DecodeFrame(buf: array<Byte>) returns (m: Option<Message>)
    ensures m.Some? ==> FrameReads(buf[..], m.value)
    ensures m.None? ==> forall m' :: !FrameReads(buf[..], m')
  {
    if buf.Length < 4 { return None; }
    ghost var s := buf[..];
    var plen := LittleEndian(buf[0], buf[1], buf[2], buf[3]);
    assert plen == FieldLength(s) && buf[4..] == s[4..];
    var r := ReadVarint(buf, 4);
    if r.None? { return None; }
    var at := 4 + r.value.used;
    if buf.Length - at < plen {
      forall m', k | Reads(s[4..], m', k) ensures k == r.value.used {
        ReadsOnce(s[4..], r.value.value, r.value.used, m', k);
      }
      return None;
    }
    var found := Message(r.value.value, buf[at..at + plen]);
    assert FrameReadsAt(s, found, r.value.used);
    return Some(found);
  }
}
