/** Bits in a buffer of words, and the codes of the gap coder written to it and read back. */
module BitStream {
  import opened Words
  import Primes

  function BitAt(buf: seq<word>, i: nat): bool
    requires i / 32 < |buf|
  {
    Bit(buf[i / 32], i % 32)
  }

  /** After writing the bits `s` at `pos`, those bits read `s` and all others what they did. */
  ghost predicate Written(before: seq<word>, after: seq<word>, pos: nat, s: seq<bool>)
  {
    && |after| == |before| && pos + |s| <= 32 * |before|
    && (forall i {:trigger BitAt(after, i)} | 0 <= i < 32 * |before| ::
          BitAt(after, i) == if pos <= i < pos + |s| then s[i - pos] else BitAt(before, i))
  }

  lemma WrittenTwice(a: seq<word>, b: seq<word>, c: seq<word>, pos: nat, s: seq<bool>, t: seq<bool>)
    requires Written(a, b, pos, s) && Written(b, c, pos + |s|, t)
    ensures Written(a, c, pos, s + t)
  {
    forall i | 0 <= i < 32 * |a|
      ensures BitAt(c, i) == if pos <= i < pos + |s + t| then (s + t)[i - pos] else BitAt(a, i)
    {
      assert BitAt(b, i) == if pos <= i < pos + |s| then s[i - pos] else BitAt(a, i);
    }
  }

  /** The bits from `pos` on are `s`. */
  ghost predicate Reads(buf: seq<word>, pos: nat, s: seq<bool>)
  {
    pos + |s| <= 32 * |buf| && forall i {:trigger s[i]} | 0 <= i < |s| :: BitAt(buf, pos + i) == s[i]
  }

  lemma WrittenReads(before: seq<word>, after: seq<word>, pos: nat, s: seq<bool>)
    requires Written(before, after, pos, s)
    ensures Reads(after, pos, s)
  {
  }

  lemma ReadsAt(buf: seq<word>, pos: nat, s: seq<bool>, i: nat)
    requires Reads(buf, pos, s) && i < |s|
    ensures pos + i < 32 * |buf| && BitAt(buf, pos + i) == s[i]
  {
  }

  lemma ReadsSplit(buf: seq<word>, pos: nat, s: seq<bool>, t: seq<bool>)
    requires Reads(buf, pos, s + t)
    ensures Reads(buf, pos, s) && Reads(buf, pos + |s|, t)
  {
    forall i | 0 <= i < |s| ensures BitAt(buf, pos + i) == s[i] { assert (s + t)[i] == s[i]; }
    forall i | 0 <= i < |t| ensures BitAt(buf, pos + |s| + i) == t[i] { assert (s + t)[|s| + i] == t[i]; }
  }

  // ----- the codes -----

  /** `x - 1` zeros and a one. */
  function Unary(x: nat): (s: seq<bool>)
    requires x > 0
    ensures |s| == x && s[x - 1] && forall i | 0 <= i < x - 1 :: !s[i]
  {
    if x == 1 then [true] else [false] + Unary(x - 1)
  }

  /** Wherever a one lies ahead, the bits up to the first one are a unary code, so that one can be decoded. */
  lemma {:induction false} UnaryAhead(buf: seq<word>, pos: nat, end: nat) returns (x: nat)
    requires pos <= end < 32 * |buf| && BitAt(buf, end)
    ensures 0 < x <= end - pos + 1 && Reads(buf, pos, Unary(x))
    ensures BitAt(buf, pos + x - 1) && forall i | pos <= i < pos + x - 1 :: !BitAt(buf, i)
    decreases end - pos
  {
    if BitAt(buf, pos) {
      x := 1;
    } else {
      var y := UnaryAhead(buf, pos + 1, end);
      x := y + 1;
      forall i | 0 <= i < x ensures BitAt(buf, pos + i) == Unary(x)[i] {
        if i > 0 { assert BitAt(buf, pos + 1 + (i - 1)) == Unary(y)[i - 1]; }
      }
    }
  }

  /** The low `n` bits of `v`, the highest first. */
  function Binary(v: nat, n: nat): (s: seq<bool>)
    ensures |s| == n
  {
    if n == 0 then [] else Binary(v / 2, n - 1) + [v % 2 == 1]
  }

  lemma {:induction false} BinaryAt(v: nat, n: nat, i: nat)
    requires i < n
    ensures Binary(v, n)[i] == Bit(v, n - 1 - i)
  {
    if i < n - 1 { BinaryAt(v / 2, n - 1, i); }
  }

  /** `v >> n` */
  function High(v: nat, n: nat): nat
  {
    if n == 0 then v else High(v / 2, n - 1)
  }

  /** The low `n` bits of `v`. */
  function Low(v: nat, n: nat): nat
  {
    if n == 0 then 0 else v % 2 + 2 * Low(v / 2, n - 1)
  }

  /** `q << n` */
  function ShiftLeft(q: nat, n: nat): nat
  {
    if n == 0 then q else 2 * ShiftLeft(q, n - 1)
  }

  lemma {:induction false} HighLow(v: nat, n: nat)
    ensures v == ShiftLeft(High(v, n), n) + Low(v, n) && Low(v, n) < Pow2(n)
  {
    if n > 0 { HighLow(v / 2, n - 1); }
  }

  lemma {:induction false} ShiftMultiplies(q: nat, n: nat)
    ensures ShiftLeft(q, n) == q * Pow2(n)
  {
    if n > 0 {
      ShiftMultiplies(q, n - 1);
      assert q * (2 * Pow2(n - 1)) == 2 * (q * Pow2(n - 1));
    }
  }

  /** Shift and mask are quotient and remainder by a power of two. */
  lemma HighLowUnique(v: nat, n: nat, q: nat, r: nat)
    requires v == q * Pow2(n) + r && r < Pow2(n)
    ensures q == High(v, n) && r == Low(v, n)
  {
    HighLow(v, n);
    ShiftMultiplies(High(v, n), n);
    Primes.SameQuotient(Pow2(n), q, r, High(v, n), Low(v, n));
  }

  /** The code of a gap for block size `1 << logb`: how many whole blocks the gap less one has, in unary,
      and what is left in binary. */
  function Block(x: nat, logb: nat): (s: seq<bool>)
    requires x > 0
    ensures |s| == High(x - 1, logb) + 1 + logb
  {
    Unary(High(x - 1, logb) + 1) + Binary(Low(x - 1, logb), logb)
  }

  function Blocks(xs: seq<nat>, logb: nat): seq<bool>
    requires forall i | 0 <= i < |xs| :: xs[i] > 0
  {
    if xs == [] then [] else Block(xs[0], logb) + Blocks(xs[1..], logb)
  }

  /** The value of bits read with the highest first. */
  function Number(s: seq<bool>): nat
  {
    if s == [] then 0 else 2 * Number(s[..|s| - 1]) + if s[|s| - 1] then 1 else 0
  }

  lemma {:induction false} NumberOfBinary(v: nat, n: nat)
    requires v < Pow2(n)
    ensures Number(Binary(v, n)) == v
  {
    if n > 0 {
      NumberOfBinary(v / 2, n - 1);
      assert Binary(v, n)[..n - 1] == Binary(v / 2, n - 1);
    }
  }

  lemma BlockValue(x: nat, logb: nat)
    requires x > 0
    ensures x == ShiftLeft(High(x - 1, logb), logb) + Number(Binary(Low(x - 1, logb), logb)) + 1
  {
    HighLow(x - 1, logb);
    NumberOfBinary(Low(x - 1, logb), logb);
  }

  lemma PartsRead(buf: seq<word>, pos: nat, q: nat, low: seq<bool>)
    requires Reads(buf, pos, Unary(q + 1) + low)
    ensures Reads(buf, pos, Unary(q + 1)) && Reads(buf, pos + q + 1, low)
  {
    ReadsSplit(buf, pos, Unary(q + 1), low);
  }

  /** The two parts of a gap's code. */
  lemma BlockReads(buf: seq<word>, pos: nat, x: nat, logb: nat) returns (q: nat, low: seq<bool>)
    requires x > 0 && Reads(buf, pos, Block(x, logb))
    ensures Reads(buf, pos, Unary(q + 1)) && |low| == logb && Reads(buf, pos + q + 1, low)
    ensures x == ShiftLeft(q, logb) + Number(low) + 1 && |Block(x, logb)| == q + 1 + logb
  {
    q, low := High(x - 1, logb), Binary(Low(x - 1, logb), logb);
    BlockValue(x, logb);
    PartsRead(buf, pos, q, low);
  }

  lemma BlocksStep(xs: seq<nat>, i: nat, logb: nat, s: seq<bool>)
    requires i < |xs| && forall j | 0 <= j < |xs| :: xs[j] > 0
    ensures Blocks(xs[i..], logb) == Block(xs[i], logb) + Blocks(xs[i + 1..], logb)
    ensures s + Blocks(xs[i..], logb) == (s + Block(xs[i], logb)) + Blocks(xs[i + 1..], logb)
    ensures |Blocks(xs[i..], logb)| == |Block(xs[i], logb)| + |Blocks(xs[i + 1..], logb)|
  {
    assert xs[i..][1..] == xs[i + 1..];
  }

  // ----- one bit -----

  /** Setting or clearing one bit of one word. */
  lemma PutBit(buf: seq<word>, p: nat, k: nat, b: bool)
    requires p < |buf| && k < 32
    ensures var w := if b then Or(buf[p], Pow2(k)) else Clear(buf[p], k);
            w < WORD_LIMIT && Written(buf, buf[p := w], 32 * p + k, [b])
  {
    var w := if b then Or(buf[p], Pow2(k)) else Clear(buf[p], k);
    WordIsPow2();
    Pow2Grows(k + 1, 32);
    Pow2Grows(k, k + 1);
    OrBelow(buf[p], Pow2(k), 32);
    ClearBelow(buf[p], k);
    var after := buf[p := w];
    forall i | 0 <= i < 32 * |buf|
      ensures BitAt(after, i) == if i == 32 * p + k then b else BitAt(buf, i)
    {
      BitOr(buf[p], Pow2(k), i % 32);
      BitPow2(k, i % 32);
      BitClear(buf[p], k, i % 32);
    }
  }

  lemma WrittenNone(b: seq<word>, at: nat)
    requires at <= 32 * |b|
    ensures Written(b, b, at, [])
  {
  }

  class Stream {
    const buffer: array<word>
    var posp: nat
    var posbit: nat

    ghost predicate Valid()
      reads this
    {
      posbit < 32 && posp <= buffer.Length
    }

    function Position(): nat
      reads this
    {
      32 * posp + posbit
    }

    /** There is room for `n` more bits. */
    ghost predicate Room(n: nat)
      reads this
    {
      Valid() && Position() + n <= 32 * buffer.Length
    }

    /** `ENCODE_START` and `DECODE_START` */
    constructor (buf: array<word>, p: nat)
      requires p <= 32 * buf.Length
      ensures buffer == buf && Valid() && Position() == p
    {
      buffer := buf;
      posp, posbit := p / 32, p % 32;
    }

    method Advance()
      requires Room(1)
      modifies this
      ensures Valid() && Position() == old(Position()) + 1
    {
      posbit := posbit + 1;
      posp := posp + posbit / 32;
      posbit := posbit % 32;
    }

    method EncodeBit(b: bool)
      requires Room(1)
      modifies this, buffer
      ensures Valid() && Position() == old(Position()) + 1
      ensures Written(old(buffer[..]), buffer[..], old(Position()), [b])
    {
      ghost var buf := buffer[..];
      PutBit(buf, posp, posbit, b);
      buffer[posp] := if b then Or(buffer[posp], Pow2(posbit)) else Clear(buffer[posp], posbit);
      assert buffer[..] == buf[posp := buffer[posp]];
      Advance();
    }

    /** `UNARY_ENCODE_L` */
    method EncodeUnary(x: nat, count: nat) returns (newcount: nat)
      requires x > 0 && Room(x)
      modifies this, buffer
      ensures Valid() && Position() == old(Position()) + x && newcount == count + x
      ensures Written(old(buffer[..]), buffer[..], old(Position()), Unary(x))
    {
      newcount := count + x;
      var n := x - 1;
      ghost var s: seq<bool> := [];
      while n != 0
        invariant n < x && |s| == x - 1 - n && (forall i | 0 <= i < |s| :: !s[i])
        invariant Valid() && Position() == old(Position()) + |s|
        invariant Written(old(buffer[..]), buffer[..], old(Position()), s)
      {
        ghost var b := buffer[..];
        EncodeBit(false);
        WrittenTwice(old(buffer[..]), b, buffer[..], old(Position()), s, [false]);
        s := s + [false];
        n := n - 1;
      }
      ghost var b := buffer[..];
      EncodeBit(true);
      WrittenTwice(old(buffer[..]), b, buffer[..], old(Position()), s, [true]);
      assert s + [true] == Unary(x);
    }

    /** `BINARY_ENCODE_L` */
    method EncodeBinary(x: nat, logb: nat, count: nat) returns (newcount: nat)
      requires x > 0 && Room(logb)
      modifies this, buffer
      ensures Valid() && Position() == old(Position()) + logb && newcount == count + logb
      ensures Written(old(buffer[..]), buffer[..], old(Position()), Binary(x - 1, logb))
    {
      newcount := count + logb;
      var v, nbits := x - 1, logb;
      ghost var all := Binary(v, logb);
      while nbits > 0
        invariant 0 <= nbits <= logb && Valid() && Position() == old(Position()) + logb - nbits
        invariant Written(old(buffer[..]), buffer[..], old(Position()), all[..logb - nbits])
      {
        nbits := nbits - 1;
        ghost var b := buffer[..];
        BinaryAt(v, logb, logb - 1 - nbits);
        EncodeBit(Bit(v, nbits));
        WrittenTwice(old(buffer[..]), b, buffer[..], old(Position()), all[..logb - 1 - nbits], [Bit(v, nbits)]);
        assert all[..logb - nbits] == all[..logb - 1 - nbits] + [Bit(v, nbits)];
      }
      assert all[..logb] == all;
    }

    /** `BBLOCK_ENCODE_L` */
    method EncodeBlock(x: nat, logb: nat, count: nat) returns (newcount: nat)
      requires x > 0 && Room(|Block(x, logb)|)
      modifies this, buffer
      ensures Valid() && Position() == old(Position()) + |Block(x, logb)|
      ensures newcount == count + |Block(x, logb)|
      ensures Written(old(buffer[..]), buffer[..], old(Position()), Block(x, logb))
    {
      var bb := Pow2(logb);
      var xx, xdivb := x - 1, 0;
      while xx >= bb
        invariant xx >= 0 && xdivb >= 0 && x - 1 == xdivb * bb + xx
      {
        xdivb := xdivb + 1;
        xx := xx - bb;
      }
      HighLowUnique(x - 1, logb, xdivb, xx);
      newcount := EncodeUnary(xdivb + 1, count);
      ghost var b, p := buffer[..], Position();
      newcount := EncodeBinary(xx + 1, logb, newcount);
      WrittenTwice(old(buffer[..]), b, buffer[..], old(Position()), Unary(xdivb + 1), Binary(xx, logb));
    }

    /** Encode a list of gaps. */
    method EncodeList(xs: seq<nat>, logb: nat, count: nat) returns (newcount: nat)
      requires (forall i | 0 <= i < |xs| :: xs[i] > 0) && Room(|Blocks(xs, logb)|)
      modifies this, buffer
      ensures Valid() && Position() == old(Position()) + |Blocks(xs, logb)|
      ensures newcount == count + |Blocks(xs, logb)|
      ensures Written(old(buffer[..]), buffer[..], old(Position()), Blocks(xs, logb))
    {
      hide Written, Block;
      WrittenNone(buffer[..], Position());
      newcount := count;
      ghost var s: seq<bool> := [];
      var i := 0;
      while i < |xs|
        invariant 0 <= i <= |xs| && s + Blocks(xs[i..], logb) == Blocks(xs, logb)
        invariant Valid() && Position() == old(Position()) + |s| && newcount == count + |s|
        invariant Written(old(buffer[..]), buffer[..], old(Position()), s)
      {
        ghost var b := buffer[..];
        BlocksStep(xs, i, logb, s);
        newcount := EncodeBlock(xs[i], logb, newcount);
        WrittenTwice(old(buffer[..]), b, buffer[..], old(Position()), s, Block(xs[i], logb));
        s := s + Block(xs[i], logb);
        i := i + 1;
      }
      assert Blocks(xs[i..], logb) == [];
      assert s == Blocks(xs, logb);
    }

    /** `DECODE_BIT` */
    method DecodeBit() returns (b: bool)
      requires Room(1)
      ensures b == BitAt(buffer[..], Position())
    {
      b := Bit(buffer[posp], posbit);
    }

    /** `UNARY_DECODE` */
    method DecodeUnary(ghost want: nat) returns (x: nat)
      requires want > 0 && Valid() && Reads(buffer[..], Position(), Unary(want))
      modifies this
      ensures x == want && Valid() && Position() == old(Position()) + want
    {
      x := 1;
      ghost var s, p := Unary(want), Position();
      ReadsAt(buffer[..], p, s, 0);
      var bit := DecodeBit();
      while !bit
        invariant 0 < x <= want && Valid() && Position() == p + x - 1 && Position() < 32 * buffer.Length
        invariant bit == s[x - 1]
        decreases want - x
      {
        x := x + 1;
        ReadsAt(buffer[..], p, s, x - 1);
        Advance();
        bit := DecodeBit();
      }
      Advance();
    }

    /** `BINARY_DECODE` */
    method DecodeBinary(logb: nat, ghost s: seq<bool>) returns (x: nat)
      requires Valid() && |s| == logb && Reads(buffer[..], Position(), s)
      modifies this
      ensures x == Number(s) + 1 && Valid() && Position() == old(Position()) + logb
    {
      var v, i := 0, 0;
      while i < logb
        invariant 0 <= i <= logb && Valid() && Position() == old(Position()) + i && v == Number(s[..i])
      {
        ReadsAt(buffer[..], old(Position()), s, i);
        assert s[..i + 1][..i] == s[..i];
        var bit := DecodeBit();
        v := v + v + if bit then 1 else 0;
        Advance();
        i := i + 1;
      }
      assert s[..logb] == s;
      x := v + 1;
    }

    /** `BBLOCK_DECODE` */
    method DecodeBlock(logb: nat, ghost want: nat) returns (x: nat)
      requires want > 0 && Valid() && Reads(buffer[..], Position(), Block(want, logb))
      modifies this
      ensures x == want && Valid() && Position() == old(Position()) + |Block(want, logb)|
    {
      ghost var q, low := BlockReads(buffer[..], Position(), want, logb);
      var xdivb := DecodeUnary(q + 1);
      xdivb := xdivb - 1;
      var x1 := DecodeBinary(logb, low);
      x := ShiftLeft(xdivb, logb) + x1;
    }

    /** Decode as many gaps as were encoded. */
    method DecodeList(n: nat, logb: nat, ghost want: seq<nat>) returns (xs: seq<nat>)
      requires |want| == n && (forall i | 0 <= i < n :: want[i] > 0)
      requires Valid() && Reads(buffer[..], Position(), Blocks(want, logb))
      modifies this
      ensures xs == want && Valid() && Position() == old(Position()) + |Blocks(want, logb)|
    {
      hide Reads, Block;
      xs := [];
      var i := 0;
      while i < n
        invariant 0 <= i <= n && xs == want[..i] && Valid()
        invariant Position() + |Blocks(want[i..], logb)| == old(Position()) + |Blocks(want, logb)|
        invariant Reads(buffer[..], Position(), Blocks(want[i..], logb))
      {
        BlocksStep(want, i, logb, []);
        ReadsSplit(buffer[..], Position(), Block(want[i], logb), Blocks(want[i + 1..], logb));
        var x := DecodeBlock(logb, want[i]);
        xs := xs + [x];
        i := i + 1;
      }
    }
  }

  /** Encoding any list of positive numbers from any bit position on and decoding from there gives the list
      back and ends at the same position; all other bits of the buffer keep their values. */
  method RoundTrip(buf: array<word>, p: nat, xs: seq<nat>, logb: nat) returns (ys: seq<nat>, end: nat)
    requires (forall i | 0 <= i < |xs| :: xs[i] > 0) && p + |Blocks(xs, logb)| <= 32 * buf.Length
    modifies buf
    ensures ys == xs && end == p + |Blocks(xs, logb)|
    ensures forall i | 0 <= i < 32 * buf.Length && !(p <= i < end) :: BitAt(buf[..], i) == BitAt(old(buf[..]), i)
  {
    var writer := new Stream(buf, p);
    var count := writer.EncodeList(xs, logb, 0);
    WrittenReads(old(buf[..]), buf[..], p, Blocks(xs, logb));
    var reader := new Stream(buf, p);
    ys := reader.DecodeList(|xs|, logb, xs);
    end := reader.Position();
    assert end == writer.Position() == p + count;
  }
}
