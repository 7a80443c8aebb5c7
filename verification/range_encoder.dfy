/** The byte-emitting range encoder over a fixed-size output buffer
    (src/range_coder.rs:115-174). `low` and `range` are 32-bit words whose
    arithmetic wraps, as in the ENet C original; they are kept as bounded
    integers, and the source's bitwise expressions on them are restated
    arithmetically. Only the exclusive-or test is related to its bitwise
    form, and only on bit-vectors (`XorReachesTop`).

    `Encoded` and `Flushed` are recursive reference definitions of
    `encode` and `flush`; the methods `Encode` and `Flush` are the source's
    loops and are shown to compute the same thing. */
module RangeEncoder {
  import opened Fixed
  import opened RangeCoder

  datatype Encoder = Encoder(output: seq<u8>, position: nat, low: u32, range: u32)

  /** The write position has not run past the buffer. */
  predicate Valid(e: Encoder)
  {
    e.position <= |e.output|
  }

  /** `RangeEncoder::new`: the whole 32-bit interval over the whole buffer. */
  function New(output: seq<u8>): (e: Encoder)
    ensures e.output == output && e.position == 0
    ensures e.low == 0 && e.range as int == U32_MODULUS - 1
    ensures Valid(e)
  {
    Encoder(output, 0, 0, 0xFFFF_FFFF)
  }

  /** `write_byte`: stores `byte` at the write position and advances it,
      or reports failure and changes nothing when the buffer is full. */
  function WriteByte(e: Encoder, byte: u8): (r: (Encoder, bool))
    ensures r.1 <==> e.position < |e.output|
    ensures !r.1 ==> r.0 == e
    ensures r.1 ==> && r.0.position == e.position + 1
                    && |r.0.output| == |e.output|
                    && r.0.output[e.position] == byte
                    && (forall k :: 0 <= k < |e.output| && k != e.position ==> r.0.output[k] == e.output[k])
                    && r.0.low == e.low && r.0.range == e.range
  {
    if e.position >= |e.output| then (e, false)
    else (e.(output := e.output[e.position := byte], position := e.position + 1), true)
  }

  /** The output outside positions `from .. to` is as in `before`. */
  predicate UnchangedOutside(before: seq<u8>, after: seq<u8>, from: nat, to: nat)
  {
    |after| == |before| && forall k :: 0 <= k < |before| && !(from <= k < to) ==> after[k] == before[k]
  }

  /** Two writes inside growing windows stay inside their union. */
  lemma UnchangedOutsideTrans(a: seq<u8>, b: seq<u8>, c: seq<u8>, p1: nat, q1: nat, p2: nat, q2: nat)
    requires UnchangedOutside(a, b, p1, q1) && UnchangedOutside(b, c, p2, q2)
    requires p1 <= p2 && q1 <= q2
    ensures UnchangedOutside(a, c, p1, q2)
  {
  }

  /** `WriteByte` changes the output at the write position only. */
  lemma WriteByteWindow(e: Encoder, byte: u8)
    ensures UnchangedOutside(e.output, WriteByte(e, byte).0.output, e.position, WriteByte(e, byte).0.position)
  {
  }

  // ---------------------------------------------------------------------
  // The 32-bit word operations of `encode` and `flush`
  // ---------------------------------------------------------------------

  /** The top byte of a word: `(x >> 24) as u8`. */
  function TopByte(x: u32): (b: u8)
    ensures b as int * 0x100_0000 <= x as int < (b as int + 1) * 0x100_0000
  {
    (x as int / 0x100_0000) as u8
  }

  /** `x << 8`: the word moves up a byte and its top byte is lost. */
  function ShiftLeft8(x: u32): (r: u32)
    ensures r as int == (x as int % 0x100_0000) * 0x100
  {
    ((x as int * 0x100) % U32_MODULUS) as u32
  }

  /** `(low ^ (low + range)) >= RANGE_CODER_TOP`: the two ends of the
      interval differ in their top byte. */
  predicate TopBytesDiffer(low: u32, range: u32)
  {
    TopByte(low) != TopByte(WrappingAdd(low, range))
  }

  /** The source's bitwise test on 32-bit words: an exclusive or reaches
      2^24 exactly when the two words differ in their top byte (bits
      24-31). `TopBytesDiffer` states the same comparison on the integer
      model; that `TopByte` and `WrappingAdd` agree with `>> 24` and
      wrapping `+` on bit-vectors is not proved here. */
  lemma XorReachesTop(a: bv32, b: bv32)
    ensures (a ^ b) >= 0x100_0000 <==> (a >> 24) != (b >> 24)
  {
  }

  /** The loop in `encode` stops once the ends of the interval differ in
      their top byte and `range` is at least 2^16. */
  predicate Normalised(low: u32, range: u32)
  {
    TopBytesDiffer(low, range) && range >= RANGE_CODER_BOTTOM
  }

  /** The narrowing at the start of `encode`: the interval is cut into
      `total` parts and the `count` parts starting at part `under` kept. */
  function Narrow(e: Encoder, under: u32, count: u32, total: u32): (r: Encoder)
    requires total > 0
    ensures r.output == e.output && r.position == e.position
  {
    var range := e.range / total;
    e.(low := WrappingAdd(e.low, WrappingMul(under, range)), range := WrappingMul(range, count))
  }

  /** When the ends of the interval differ in their top byte but the range
      is below 2^16, `encode` cuts the range to end at the next multiple of
      2^16 above `low`: `low.wrapping_neg() & (RANGE_CODER_BOTTOM - 1)`. */
  function Shrink(e: Encoder): (r: Encoder)
    ensures r.output == e.output && r.position == e.position && r.low == e.low
    ensures TopBytesDiffer(e.low, e.range) ==> (r.low as int + r.range as int) % 0x1_0000 == 0
    ensures !TopBytesDiffer(e.low, e.range) ==> r == e
  {
    if TopBytesDiffer(e.low, e.range)
    then e.(range := ((U32_MODULUS - e.low as int) % 0x1_0000) as u32)
    else e
  }

  /** After a byte is emitted, `low` and `range` move up by a byte. */
  function ShiftOut(e: Encoder): (r: Encoder)
    ensures r.output == e.output && r.position == e.position
    ensures r.low as int == (e.low as int % 0x100_0000) * 0x100
    ensures r.range as int == (e.range as int % 0x100_0000) * 0x100
  {
    e.(range := ShiftLeft8(e.range), low := ShiftLeft8(e.low))
  }

  // ---------------------------------------------------------------------
  // encode
  // ---------------------------------------------------------------------

  /** The normalising loop of `encode`, as a recursive definition: emit the
      top byte of `low` until the interval is normalised, shrinking the
      range first when its ends already differ in the top byte. The flag
      is false exactly when a byte could not be written. */
  function Normalize(e: Encoder): (r: (Encoder, bool))
    ensures r.0.position >= e.position
    ensures Valid(e) ==> Valid(r.0)
    ensures !r.1 ==> r.0.position >= |r.0.output|
    ensures r.1 ==> Normalised(r.0.low, r.0.range)
    ensures UnchangedOutside(e.output, r.0.output, e.position, r.0.position)
    decreases |e.output| - e.position
  {
    if Normalised(e.low, e.range) then (e, true)
    else
      var e1 := Shrink(e);
      var (e2, written) := WriteByte(e1, TopByte(e1.low));
      if !written then (e2, false)
      else
        var r := Normalize(ShiftOut(e2));
        WriteByteWindow(e1, TopByte(e1.low));
        UnchangedOutsideTrans(e.output, e2.output, r.0.output, e.position, e2.position, e2.position, r.0.position);
        r
  }

  /** `encode`: narrow, then normalise. */
  function Encoded(e: Encoder, under: u32, count: u32, total: u32): (r: (Encoder, bool))
    requires total > 0
  {
    Normalize(Narrow(e, under, count, total))
  }

  /** `encode` as the source writes it: the narrowing followed by a loop
      that ends by `break` once normalised or by returning false when a
      byte cannot be written. Division by `total` panics when it is 0. */
  method Encode(e: Encoder, under: u32, count: u32, total: u32) returns (r: Encoder, ok: bool)
    requires total > 0
    ensures (r, ok) == Encoded(e, under, count, total)
    ensures r.position >= e.position
    ensures Valid(e) ==> Valid(r)
    ensures !ok ==> r.position >= |r.output|
    ensures ok ==> Normalised(r.low, r.range)
  {
    r := Narrow(e, under, count, total);
    while true
      invariant Normalize(r) == Encoded(e, under, count, total)
      decreases |r.output| - r.position
    {
      if TopBytesDiffer(r.low, r.range) {
        if r.range >= RANGE_CODER_BOTTOM {
          break;
        }
        r := Shrink(r);
      }
      var (w, written) := WriteByte(r, TopByte(r.low));
      r := w;
      if !written {
        return r, false;
      }
      r := ShiftOut(r);
    }
    ok := true;
  }

  // ---------------------------------------------------------------------
  // flush
  // ---------------------------------------------------------------------

  /** `flush`, as a recursive definition: emit the top byte of `low` and
      shift it out until `low` is zero or the buffer is full. */
  function Flushed(e: Encoder): (r: Encoder)
    ensures |r.output| == |e.output| && r.range == e.range
    ensures r.position >= e.position
    ensures Valid(e) ==> Valid(r)
    ensures r.low == 0 || r.position >= |r.output|
    ensures UnchangedOutside(e.output, r.output, e.position, r.position)
    decreases |e.output| - e.position
  {
    if e.low == 0 then e
    else
      var (w, written) := WriteByte(e, TopByte(e.low));
      if !written then w
      else
        var r := Flushed(w.(low := ShiftLeft8(w.low)));
        WriteByteWindow(e, TopByte(e.low));
        UnchangedOutsideTrans(e.output, w.output, r.output, e.position, w.position, w.position, r.position);
        r
  }

  /** The number of bytes of `low` left to emit: its width once trailing
      zero bytes are dropped. */
  function Significant(low: u32): (n: nat)
    ensures n <= 4
    ensures n == 0 <==> low == 0
  {
    if low == 0 then 0
    else if low as int % 0x100_0000 == 0 then 1
    else if low as int % 0x1_0000 == 0 then 2
    else if low as int % 0x100 == 0 then 3
    else 4
  }

  /** Shifting a non-zero `low` left by a byte leaves one byte fewer. */
  lemma ShiftDropsByte(low: u32)
    requires low != 0
    ensures Significant(ShiftLeft8(low)) == Significant(low) - 1
  {
    var x := low as int;
    var m := x % 0x100_0000;
    var s := ShiftLeft8(low) as int;
    assert s == m * 0x100;
    LowerBytes(x);
    ShiftedLowerBytes(m);
  }

  /** The low 16 and 8 bits of a word are those of its low 24 bits. */
  lemma LowerBytes(x: nat)
    ensures (x % 0x100_0000) % 0x1_0000 == x % 0x1_0000
    ensures (x % 0x100_0000) % 0x100 == x % 0x100
  {
    var m := x % 0x100_0000;
    var a := x / 0x100_0000;
    assert x == a * 0x100_0000 + m;
    ModAfter(a * 0x100 + m / 0x1_0000, m % 0x1_0000, 0x1_0000);
    assert x == (a * 0x100 + m / 0x1_0000) * 0x1_0000 + m % 0x1_0000;
    ModAfter(a * 0x1_0000 + m / 0x100, m % 0x100, 0x100);
    assert x == (a * 0x1_0000 + m / 0x100) * 0x100 + m % 0x100;
  }

  /** Moving 24 bits up a byte: what is left below bit 24, 16 and 8. */
  lemma ShiftedLowerBytes(m: nat)
    requires m < 0x100_0000
    ensures (m * 0x100) % 0x100_0000 == (m % 0x1_0000) * 0x100
    ensures (m * 0x100) % 0x1_0000 == (m % 0x100) * 0x100
    ensures (m * 0x100) % 0x100 == 0
  {
    ModAfter(m / 0x1_0000, (m % 0x1_0000) * 0x100, 0x100_0000);
    assert m * 0x100 == (m / 0x1_0000) * 0x100_0000 + (m % 0x1_0000) * 0x100;
    ModAfter(m / 0x100, (m % 0x100) * 0x100, 0x1_0000);
    assert m * 0x100 == (m / 0x100) * 0x1_0000 + (m % 0x100) * 0x100;
    ModAfter(m, 0, 0x100);
  }

  /** A multiple of `k` plus a remainder below `k` leaves that remainder. */
  lemma ModAfter(q: int, r: int, k: int)
    requires k == 0x100 || k == 0x1_0000 || k == 0x100_0000
    requires 0 <= r < k
    ensures (q * k + r) % k == r
  {
  }

  /** Byte `j` of `x`, counting from the most significant. */
  function ByteAt(x: u32, j: nat): u8
    requires j < 4
  {
    if j == 0 then TopByte(x)
    else if j == 1 then TopByte(ShiftLeft8(x))
    else if j == 2 then TopByte(ShiftLeft8(ShiftLeft8(x)))
    else TopByte(ShiftLeft8(ShiftLeft8(ShiftLeft8(x))))
  }

  function Min(a: int, b: int): int
  {
    if a <= b then a else b
  }

  /** What `flush` leaves to do after emitting the top byte of `low`. */
  function FlushRest(e: Encoder): (r: Encoder)
    requires e.position < |e.output|
    ensures r.position == e.position + 1 && |r.output| == |e.output|
    ensures r.output[e.position] == TopByte(e.low)
  {
    WriteByte(e, TopByte(e.low)).0.(low := ShiftLeft8(e.low))
  }

  /** One round of `flush`: with room left and a non-zero `low`, flushing
      is writing the top byte and flushing the rest. */
  lemma FlushedStep(e: Encoder)
    requires e.low != 0 && e.position < |e.output|
    ensures Flushed(e) == Flushed(FlushRest(e))
  {
  }

  /** `flush` writes as many significant bytes of `low` as fit: never more
      than four, and exactly four when the low byte of `low` is not zero
      and there is room. */
  lemma {:induction false} FlushedCount(e: Encoder)
    requires Valid(e)
    ensures Flushed(e).position == e.position + Min(Significant(e.low), |e.output| - e.position)
    decreases |e.output| - e.position
  {
    if e.low != 0 && e.position < |e.output| {
      FlushedStep(e);
      ShiftDropsByte(e.low);
      FlushedCount(FlushRest(e));
    }
  }

  /** The bytes `flush` writes are those of `low`, most significant first. */
  lemma {:induction false} FlushedBytes(e: Encoder, j: nat)
    requires Valid(e)
    requires j < Flushed(e).position - e.position
    ensures j < 4 && Flushed(e).output[e.position + j] == ByteAt(e.low, j)
    decreases j
  {
    FlushedCount(e);
    FlushedStep(e);
    var e' := FlushRest(e);
    if j == 0 {
      assert Flushed(e').output[e.position] == e'.output[e.position];
    } else {
      FlushedBytes(e', j - 1);
    }
  }

  /** `flush` as the source writes it. */
  method Flush(e: Encoder) returns (r: Encoder)
    ensures r == Flushed(e)
    ensures Valid(e) ==> r.position - e.position <= 4
    ensures r.low == 0 || r.position >= |r.output|
    ensures Valid(e) ==> Valid(r)
  {
    if Valid(e) {
      FlushedCount(e);
    }
    r := e;
    while r.low != 0
      invariant Flushed(r) == Flushed(e)
      decreases |r.output| - r.position
    {
      var (w, written) := WriteByte(r, TopByte(r.low));
      if !written {
        return w;
      }
      r := w.(low := ShiftLeft8(w.low));
    }
  }

  // ---------------------------------------------------------------------
  // Examples
  // ---------------------------------------------------------------------

  /** Encoding (5, 10, 100) into a fresh ten-byte buffer narrows the
      interval without emitting a byte; flushing then emits the four bytes
      of `low`. */
  lemma EncodeFlushExample()
    ensures var (e, ok) := Encoded(New(seq(10, _ => 0)), 5, 10, 100);
            && ok && e.position == 0 && e.low == 0x0CCC_CCC8 && e.range == 0x1999_9990
            && Flushed(e).position == 4
            && Flushed(e).output[..4] == [0x0C, 0xCC, 0xCC, 0xC8]
  {
    var n := Narrow(New(seq(10, _ => 0)), 5, 10, 100);
    assert n.low == 0x0CCC_CCC8 && n.range == 0x1999_9990;
    assert Normalised(n.low, n.range);
    FlushedCount(n);
    forall j | 0 <= j < 4
      ensures Flushed(n).output[j] == ByteAt(n.low, j)
    {
      FlushedBytes(n, j);
    }
  }

  /** With a one-byte buffer the same call also succeeds without writing,
      so the position stays within the buffer. */
  lemma EncodeOneByteExample()
    ensures var (e, ok) := Encoded(New([0]), 5, 10, 100);
            ok && e.position == 0 && e.position <= |e.output|
  {
    var n := Narrow(New([0]), 5, 10, 100);
    assert n.low == 0x0CCC_CCC8 && n.range == 0x1999_9990;
    assert Normalised(n.low, n.range);
  }
}
