/** The bit reader of the decoder (`gz_nextbit`, `gz_readbits`): bits are taken
    least-significant first within each byte and bytes in order, as section 3.1.1
    of RFC 1951 prescribes; once the input is exhausted every read yields 0. */
module BitStream {
  import opened Base

  /** Bit `p` of the input stream: bit `p % 8` of byte `p / 8`, and 0 past the end. */
  function Bit(data: seq<byte>, p: nat): bit
  {
    if p < 8 * |data| then Digit(data[p / 8], p % 8) else 0
  }

  /** The reader's position, counted in bits from the start of the input. */
  datatype Cursor = Cursor(data: seq<byte>, pos: nat) {
    predicate Valid() {
      pos <= 8 * |data|
    }

    /** The C reader's `end` flag. */
    predicate Exhausted() {
      pos >= 8 * |data|
    }

    function Unread(): nat
      requires Valid()
    {
      8 * |data| - pos
    }
  }

  /** `c2` reads the same input as `c` and is not behind it. */
  predicate Follows(c: Cursor, c2: Cursor) {
    c2.data == c.data && c.pos <= c2.pos <= 8 * |c.data|
  }

  lemma FollowsTrans(c1: Cursor, c2: Cursor, c3: Cursor)
    requires Follows(c1, c2) && Follows(c2, c3)
    ensures Follows(c1, c3)
  {
  }

  /** Two readers over the same data at the same position are the same. */
  lemma SameCursor(a: Cursor, b: Cursor)
    requires a.data == b.data && a.pos == b.pos
    ensures a == b
  {
  }

  /** A value read from the stream and the reader after the read. */
  datatype Read = Read(value: nat, cur: Cursor)

  /** `gz_nextbit`. */
  function NextBit(c: Cursor): (r: Read)
    requires c.Valid()
    ensures r.value == Bit(c.data, c.pos)
    ensures Follows(c, r.cur)
    ensures r.cur.pos == if c.Exhausted() then c.pos else c.pos + 1
  {
    if c.Exhausted() then Read(0, c)
    else Read(Digit(c.data[c.pos / 8], c.pos % 8), c.(pos := c.pos + 1))
  }

  /** `gz_readbits`: the bit read k-th lands at bit k of the result. */
  function ReadBits(c: Cursor, n: nat): (r: Read)
    requires c.Valid()
    decreases c.Unread() + n
    ensures Follows(c, r.cur)
    ensures r.cur.pos == Min(c.pos + n, 8 * |c.data|)
    ensures r.value < Pow2(n)
    ensures forall k :: 0 <= k < n ==> Digit(r.value, k) == Bit(c.data, c.pos + k)
  {
    if n == 0 then Read(0, c)
    else
      var b := NextBit(c);
      var rest := ReadBits(b.cur, n - 1);
      var v := b.value + 2 * rest.value;
      assert forall k :: 0 <= k < n ==> Digit(v, k) == Bit(c.data, c.pos + k) by {
        forall k | 0 <= k < n
          ensures Digit(v, k) == Bit(c.data, c.pos + k)
        {
          DigitOfShifted(b.value, rest.value, k);
          if k > 0 && c.Exhausted() {
            assert Bit(c.data, c.pos + k) == 0 == Bit(c.data, c.pos + k - 1);
          }
        }
      }
      Read(v, rest.cur)
  }

  /** Past the end the reader is stuck: it yields zeros and does not move. */
  lemma ExhaustedReadsZero(c: Cursor, n: nat)
    requires c.Valid() && c.Exhausted()
    ensures ReadBits(c, n) == Read(0, c)
  {
    var r := ReadBits(c, n);
    forall k | 0 <= k < n
      ensures Digit(r.value, k) == Digit(0, k)
    {
      assert Digit(0, k) == 0 by {
        ZeroDigits(k);
      }
    }
    ZeroDigits(0);
    DigitsDetermine(r.value, 0, n);
  }

  lemma {:induction false} ZeroDigits(k: nat)
    ensures Digit(0, k) == 0
  {
    if k > 0 {
      ZeroDigits(k - 1);
    }
  }

  /** A nonzero value proves that the read consumed input. */
  lemma NonzeroReadAdvances(c: Cursor, n: nat)
    requires c.Valid()
    requires ReadBits(c, n).value != 0
    ensures c.pos < ReadBits(c, n).cur.pos
  {
    if c.Exhausted() {
      ExhaustedReadsZero(c, n);
    }
  }

  /** Eight bits read at a byte boundary give back that byte. */
  lemma ReadByte(data: seq<byte>, i: nat)
    requires i < |data|
    ensures ReadBits(Cursor(data, 8 * i), 8).value == data[i]
    ensures ReadBits(Cursor(data, 8 * i), 8).cur == Cursor(data, 8 * i + 8)
  {
    ReadByteValue(data, i, 8);
  }

  lemma {:induction false} ReadByteValue(data: seq<byte>, i: nat, n: nat)
    requires i < |data| && n == 8
    ensures ReadBits(Cursor(data, 8 * i), n).value == data[i]
  {
    var r := ReadBits(Cursor(data, 8 * i), n);
    forall k | 0 <= k < n
      ensures Digit(r.value, k) == Digit(data[i], k)
    {
      BitInByte(data, i, k);
    }
    Pow2Eight();
    DigitsDetermine(r.value, data[i], n);
  }

  lemma BitInByte(data: seq<byte>, i: nat, k: nat)
    requires i < |data| && k < 8
    ensures Bit(data, 8 * i + k) == Digit(data[i], k)
  {
    var p := 8 * i + k;
    assert p / 8 == i && p % 8 == k;
  }

  /** The one power of two the byte reads need, kept apart from
      `Pow2Values` so that those proofs carry a single fact. */
  lemma Pow2Eight()
    ensures Pow2(8) == 256
  {
    assert Pow2(4) == 16;
  }

  /** The little-endian value of two bytes. */
  function U16(lo: byte, hi: byte): nat {
    lo as nat + 256 * hi as nat
  }

  /** Sixteen bits read at a byte boundary give the little-endian value of
      the two bytes there, as `gz_readbits(&ins, 2*8)` does for XLEN. */
  lemma ReadU16(data: seq<byte>, i: nat, n: nat)
    requires i + 1 < |data| && n == 16
    ensures ReadBits(Cursor(data, 8 * i), n) == Read(U16(data[i], data[i + 1]), Cursor(data, 8 * i + 16))
  {
    ReadU16Value(data, i, n);
  }

  lemma ReadU16Value(data: seq<byte>, i: nat, n: nat)
    requires i + 1 < |data| && n == 16
    ensures ReadBits(Cursor(data, 8 * i), n).value == U16(data[i], data[i + 1])
  {
    var c := Cursor(data, 8 * i);
    var r := ReadBits(c, n);
    assert r.value < Pow2(n);
    assert forall k :: 0 <= k < n ==> Digit(r.value, k) == Bit(c.data, c.pos + k);
    U16FromDigits(c, i, r.value, n);
    assert r.value == U16(data[i], data[i + 1]);
  }

  /** A 16-bit value whose digits are the bits of two bytes is their
      little-endian value. */
  lemma U16FromDigits(c: Cursor, i: nat, v: nat, n: nat)
    requires c.pos == 8 * i && i + 1 < |c.data| && n == 16 && v < Pow2(n)
    requires forall k :: 0 <= k < n ==> Digit(v, k) == Bit(c.data, c.pos + k)
    ensures v == U16(c.data[i], c.data[i + 1])
  {
    var u := U16(c.data[i], c.data[i + 1]);
    assert u < Pow2(n) by {
      Pow2Add(8, 8);
      Pow2Eight();
    }
    forall k | 0 <= k < n
      ensures Digit(v, k) == Digit(u, k)
    {
      U16Digit(c.data, i, k);
    }
    DigitsDetermine(v, u, n);
    assert v == u;
  }

  lemma U16Digit(data: seq<byte>, i: nat, k: nat)
    requires i + 1 < |data| && k < 16
    ensures Bit(data, 8 * i + k) == Digit(U16(data[i], data[i + 1]), k)
  {
    Pow2Eight();
    if k < 8 {
      BitInByte(data, i, k);
      DigitsBelowUnchanged(data[i], data[i + 1], 8, k);
      assert U16(data[i], data[i + 1]) == data[i] as nat + data[i + 1] as nat * Pow2(8);
    } else {
      BitInByte(data, i + 1, k - 8);
      assert 8 * i + k == 8 * (i + 1) + (k - 8);
      DigitsAboveShift(data[i], data[i + 1], 8, k);
      assert U16(data[i], data[i + 1]) == data[i] as nat + data[i + 1] as nat * Pow2(8);
    }
  }

  /** The next `|path|` bits at `c` spell `path`. */
  ghost predicate BitsAt(c: Cursor, path: seq<bit>) {
    && c.pos + |path| <= 8 * |c.data|
    && forall k :: 0 <= k < |path| ==> Bit(c.data, c.pos + k) == path[k]
  }

  /** The `n` low bits of `v`, least significant first: how a DEFLATE
      encoder writes an `n`-bit field. */
  function LsbBits(v: nat, n: nat): (p: seq<bit>)
    ensures |p| == n
    ensures forall k :: 0 <= k < n ==> p[k] == Digit(v, k)
    decreases n
  {
    if n == 0 then []
    else
      var rest := LsbBits(v / 2, n - 1);
      assert forall k :: 1 <= k < n ==> Digit(v, k) == Digit(v / 2, k - 1);
      [v % 2] + rest
  }

  /** Bits written as an `n`-bit field are read back by `gz_readbits`. */
  lemma ReadBitsField(c: Cursor, v: nat, n: nat)
    requires c.Valid() && v < Pow2(n) && BitsAt(c, LsbBits(v, n))
    ensures ReadBits(c, n) == Read(v, c.(pos := c.pos + n))
  {
    var r := ReadBits(c, n);
    forall k | 0 <= k < n
      ensures Digit(r.value, k) == Digit(v, k)
    {
      assert LsbBits(v, n)[k] == Digit(v, k);
    }
    DigitsDetermine(r.value, v, n);
  }

  /** The first bit of a spelled path is the next bit, and the rest of the
      path is spelled right after it. */
  lemma BitsAtFirst(c: Cursor, p: seq<bit>)
    requires c.Valid() && BitsAt(c, p) && |p| > 0
    ensures NextBit(c) == Read(p[0], c.(pos := c.pos + 1))
    ensures BitsAt(NextBit(c).cur, p[1..])
  {
    forall k | 0 <= k < |p| - 1
      ensures Bit(c.data, c.pos + 1 + k) == p[1..][k]
    {
      assert Bit(c.data, c.pos + (k + 1)) == p[k + 1];
    }
  }

  /** Bits that spell `p + q` spell `p`, then `q`. */
  lemma BitsAtSplit(c: Cursor, p: seq<bit>, q: seq<bit>)
    requires BitsAt(c, p + q)
    ensures BitsAt(c, p) && BitsAt(c.(pos := c.pos + |p|), q)
  {
    var pq := p + q;
    forall k | 0 <= k < |p|
      ensures Bit(c.data, c.pos + k) == p[k]
    {
      assert pq[k] == p[k];
    }
    forall k | 0 <= k < |q|
      ensures Bit(c.data, c.pos + |p| + k) == q[k]
    {
      assert pq[|p| + k] == q[k];
    }
  }

  /** Bits that spell `p + q` spell `p`, and `q` once the reader is past `p`. */
  lemma BitsAtRest(c: Cursor, p: seq<bit>, q: seq<bit>, rest: Cursor)
    requires BitsAt(c, p + q) && rest == c.(pos := c.pos + |p|)
    ensures BitsAt(c, p) && BitsAt(rest, q)
  {
    BitsAtSplit(c, p, q);
  }

  /** The reader as the C struct `gz_bstream` keeps it: the index of the next
      byte to load, the byte being consumed, the position of `mask` inside it
      (`mask == 1 << shift`) and the `end` flag. */
  datatype CStream = CStream(src: seq<byte>, ptr: nat, buf: byte, shift: nat, end: bool)

  predicate CValid(s: CStream) {
    s.end || (1 <= s.ptr <= |s.src| && s.buf == s.src[s.ptr - 1] && s.shift < 8)
  }

  /** The set-up `gzdec` performs: `mask = 1`, `buf` = the first byte. */
  function COpen(src: seq<byte>): (s: CStream)
    requires |src| > 0
    ensures CValid(s)
  {
    CStream(src, 1, src[0], 0, false)
  }

  /** The bit position the C state stands for. */
  function Abs(s: CStream): Cursor
    requires CValid(s)
  {
    if s.end then Cursor(s.src, 8 * |s.src|) else Cursor(s.src, 8 * (s.ptr - 1) + s.shift)
  }

  datatype CRead = CRead(value: nat, s: CStream)

  /** `gz_nextbit` on the C state, step for step. */
  function CNextBit(s: CStream): CRead
    requires CValid(s)
  {
    if s.end then CRead(0, s)
    else
      var bit := Digit(s.buf, s.shift);
      if s.shift + 1 < 8 then CRead(bit, s.(shift := s.shift + 1))
      else if s.ptr < |s.src| then CRead(bit, s.(shift := 0, buf := s.src[s.ptr], ptr := s.ptr + 1))
      else CRead(bit, s.(shift := 0, end := true))
  }

  /** `gz_readbits` on the C state: `bitsval |= bit << i` for i = 0 .. count-1. */
  function CReadBits(s: CStream, count: nat): CRead
    requires CValid(s)
    decreases count
  {
    CReadLoop(s, count, 0, 0)
  }

  function CReadLoop(s: CStream, count: nat, i: nat, bitsval: nat): CRead
    requires CValid(s)
    requires i <= count
    decreases count - i
  {
    if i == count then CRead(bitsval, s)
    else
      var b := CNextBit(s);
      CNextBitRefines(s);
      CReadLoop(b.s, count, i + 1, bitsval + b.value * Pow2(i))
  }

  lemma COpenStartsAtZero(src: seq<byte>)
    requires |src| > 0
    ensures Abs(COpen(src)) == Cursor(src, 0)
  {
  }

  /** One step of the C reader is one step of the cursor. */
  lemma CNextBitRefines(s: CStream)
    requires CValid(s)
    ensures CValid(CNextBit(s).s)
    ensures CNextBit(s).value == NextBit(Abs(s)).value
    ensures Abs(CNextBit(s).s) == NextBit(Abs(s)).cur
  {
    if !s.end {
      var p := 8 * (s.ptr - 1) + s.shift;
      assert p / 8 == s.ptr - 1;
      assert p % 8 == s.shift;
    }
  }

  /** The C accumulation loop computes the cursor's `ReadBits`, bit for bit. */
  lemma {:induction false} CReadLoopRefines(s: CStream, count: nat, i: nat, bitsval: nat)
    requires CValid(s) && i <= count
    requires bitsval < Pow2(i)
    ensures CValid(CReadLoop(s, count, i, bitsval).s)
    ensures Abs(CReadLoop(s, count, i, bitsval).s) == ReadBits(Abs(s), count - i).cur
    ensures CReadLoop(s, count, i, bitsval).value == bitsval + ReadBits(Abs(s), count - i).value * Pow2(i)
    decreases count - i
  {
    if i < count {
      var b := CNextBit(s);
      CNextBitRefines(s);
      var p := Pow2(i);
      assert Pow2(i + 1) == 2 * p;
      var acc := bitsval + b.value * p;
      assert acc < 2 * p by {
        assert b.value == 0 || b.value == 1;
      }
      CReadLoopRefines(b.s, count, i + 1, acc);
      var rest := ReadBits(Abs(b.s), count - i - 1);
      assert ReadBits(Abs(s), count - i).value == b.value + 2 * rest.value;
      assert CReadLoop(s, count, i, bitsval) == CReadLoop(b.s, count, i + 1, acc);
      AccumulateStep(bitsval, b.value, rest.value, p);
    }
  }

  lemma AccumulateStep(bitsval: int, bv: int, rv: int, p: int)
    ensures (bitsval + bv * p) + rv * (2 * p) == bitsval + (bv + 2 * rv) * p
  {
    assert rv * (2 * p) == (2 * rv) * p;
    assert bv * p + (2 * rv) * p == (bv + 2 * rv) * p;
  }

  lemma CReadBitsRefines(s: CStream, count: nat)
    requires CValid(s)
    ensures CValid(CReadBits(s, count).s)
    ensures CReadBits(s, count) == CRead(ReadBits(Abs(s), count).value, CReadBits(s, count).s)
    ensures Abs(CReadBits(s, count).s) == ReadBits(Abs(s), count).cur
  {
    CReadLoopRefines(s, count, 0, 0);
  }

  /** Once `end` is set the C reader returns 0 and its state never changes again. */
  lemma CEndIsSticky(s: CStream, count: nat)
    requires CValid(s) && s.end
    ensures CReadBits(s, count) == CRead(0, s)
  {
    CReadBitsRefines(s, count);
    ExhaustedReadsZero(Abs(s), count);
    CReadLoopStuck(s, count, 0);
  }

  lemma {:induction false} CReadLoopStuck(s: CStream, count: nat, i: nat)
    requires CValid(s) && s.end && i <= count
    ensures CReadLoop(s, count, i, 0).s == s
    decreases count - i
  {
    if i < count {
      CReadLoopStuck(s, count, i + 1);
    }
  }
}
