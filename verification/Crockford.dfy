/**
 Crockford base32 packing of pairing codes, daemon-protocol lib.rs:410-436: a
 32-bit buffer whose high bits fall off, read five bits at a time.
 */
module Crockford {
  import opened Arith
  import opened Seqs
  import opened Utf8

  // --------------------------------------------------------------- bit strings

  function Pow2(n: nat): (p: nat)
    ensures p > 0
  {
    if n == 0 then 1 else 2 * Pow2(n - 1)
  }

  /** The number a bit string spells, most significant bit first. */
  function Value(bits: seq<bool>): nat {
    if bits == [] then 0 else 2 * Value(bits[..|bits| - 1]) + (if bits[|bits| - 1] then 1 else 0)
  }

  /** The low `w` bits of `x`. */
  function BitsOf(x: nat, w: nat): (bits: seq<bool>)
    ensures |bits| == w
  {
    if w == 0 then [] else BitsOf(x / 2, w - 1) + [x % 2 == 1]
  }

  /** A byte string as one bit string. */
  function Bits(bytes: seq<byte>): (bits: seq<bool>)
    ensures |bits| == 8 * |bytes|
  {
    if bytes == [] then [] else Bits(bytes[..|bytes| - 1]) + BitsOf(bytes[|bytes| - 1], 8)
  }

  lemma {:induction false} ValueBound(bits: seq<bool>)
    ensures Value(bits) < Pow2(|bits|)
  {
    if bits == [] {
    } else {
      ValueBound(bits[..|bits| - 1]);
    }
  }

  lemma {:induction false} ValueConcat(a: seq<bool>, b: seq<bool>)
    ensures Value(a + b) == Value(a) * Pow2(|b|) + Value(b)
  {
    if b == [] {
      assert a + b == a;
    } else {
      var init := b[..|b| - 1];
      ValueConcat(a, init);
      assert (a + b)[..|a + b| - 1] == a + init;
      assert Value(a) * Pow2(|b|) == 2 * (Value(a) * Pow2(|init|));
    }
  }

  lemma {:induction false} ValueOfBits(x: nat, w: nat)
    requires x < Pow2(w)
    ensures Value(BitsOf(x, w)) == x
  {
    if w == 0 {
    } else {
      ValueOfBits(x / 2, w - 1);
      ValueSnoc(BitsOf(x / 2, w - 1), x % 2 == 1);
    }
  }

  lemma ValueSnoc(bits: seq<bool>, bit: bool)
    ensures Value(bits + [bit]) == 2 * Value(bits) + (if bit then 1 else 0)
  {
    assert (bits + [bit])[..|bits|] == bits;
  }

  lemma {:induction false} ValueIsInjective(a: seq<bool>, b: seq<bool>)
    requires |a| == |b| && Value(a) == Value(b)
    ensures a == b
  {
    if a == [] {
    } else {
      var x, y := a[..|a| - 1], b[..|b| - 1];
      ValueIsInjective(x, y);
      assert a == x + [a[|a| - 1]] && b == y + [b[|b| - 1]];
    }
  }

  lemma SmallPowers()
    ensures Pow2(0) == 1 && Pow2(1) == 2 && Pow2(2) == 4 && Pow2(3) == 8 && Pow2(4) == 16
    ensures Pow2(5) == 32 && Pow2(6) == 64 && Pow2(7) == 128 && Pow2(8) == 256
    ensures Pow2(9) == 512 && Pow2(10) == 1024 && Pow2(11) == 2048 && Pow2(12) == 4096
  {
    assert Pow2(4) == 16;
    assert Pow2(8) == 256;
  }

  // ------------------------------------------------------------------- digits

  /** "0123456789ABCDEFGHJKMNPQRSTVWXYZ": no I, L, O or U. */
  function Digit(v: nat): (c: char)
    requires v < 32
  {
    "0123456789ABCDEFGHJKMNPQRSTVWXYZ"[v]
  }

  /** The position of a digit, by the gaps of the alphabet. */
  function DigitCode(v: nat): nat
    requires v < 32
  {
    if v < 10 then 48 + v else if v < 18 then 55 + v else if v < 20 then 56 + v
    else if v < 22 then 57 + v else if v < 27 then 58 + v else 59 + v
  }

  lemma DigitIsCode(v: nat)
    requires v < 32
    ensures Digit(v) as int == DigitCode(v)
  {
    var s := "0123456789" + "ABCDEFGH" + "JK" + "MN" + "PQRST" + "VWXYZ";
    assert "0123456789ABCDEFGHJKMNPQRSTVWXYZ" == s;
    if v < 10 { assert s[v] == "0123456789"[v]; }
    else if v < 18 { assert s[v] == "ABCDEFGH"[v - 10]; }
    else if v < 20 { assert s[v] == "JK"[v - 18]; }
    else if v < 22 { assert s[v] == "MN"[v - 20]; }
    else if v < 27 { assert s[v] == "PQRST"[v - 22]; }
    else { assert s[v] == "VWXYZ"[v - 27]; }
  }

  lemma DigitIsInjective(v: nat, w: nat)
    requires v < 32 && w < 32 && Digit(v) == Digit(w)
    ensures v == w
  {
    DigitIsCode(v);
    DigitIsCode(w);
  }

  /** Bits 5k to 5k+4 of the bytes, zeros completing the last group. */
  function Group(bytes: seq<byte>, k: nat): (g: seq<bool>)
    requires 5 * k < 8 * |bytes|
    ensures |g| == 5
  {
    (Bits(bytes) + Repeat(false, 4))[5 * k..5 * k + 5]
  }

  function DigitAt(bytes: seq<byte>, k: nat): char
    requires 5 * k < 8 * |bytes|
  {
    GroupBound(Group(bytes, k));
    Digit(Value(Group(bytes, k)))
  }

  lemma GroupBound(g: seq<bool>)
    requires |g| == 5
    ensures Value(g) < 32
  {
    ValueBound(g);
    SmallPowers();
  }

  /** How many digits come out: all groups, a last partial one included, up to
      the requested number; asking for none yields every whole group. */
  function Count(n: nat, chars: nat): nat {
    if chars == 0 then 8 * n / 5 else if chars < (8 * n + 4) / 5 then chars else (8 * n + 4) / 5
  }

  /** Asked for none, as many digits come out as there are whole groups; asked for
      some, no more than those, and fewer only when every bit is in a digit. */
  lemma CountMeans(n: nat, chars: nat)
    ensures var d := Count(n, chars);
      if chars == 0 then 5 * d <= 8 * n < 5 * (d + 1)
      else d <= chars && (d > 0 ==> 5 * (d - 1) < 8 * n) && (d < chars ==> 8 * n <= 5 * d)
  {}

  // -------------------------------------------------------------- the packer

  lemma {:induction false} Pow2Sum(a: nat, b: nat)
    ensures Pow2(a + b) == Pow2(a) * Pow2(b)
  {
    if a == 0 {
    } else {
      Pow2Sum(a - 1, b);
      assert Pow2(a) * Pow2(b) == 2 * (Pow2(a - 1) * Pow2(b));
    }
  }

  /** Taking five bits off the top of the `bits` low ones. */
  lemma TakeFive(buffer: nat, bits: nat)
    requires 5 <= bits
    ensures buffer / Pow2(bits - 5) % 32 == buffer % Pow2(bits) / Pow2(bits - 5)
    ensures buffer % Pow2(bits - 5) == buffer % Pow2(bits) % Pow2(bits - 5)
  {
    Pow2Sum(5, bits - 5);
    SmallPowers();
    TwoSteps(buffer, Pow2(bits - 5), 32);
  }

  /** Shifting a byte in: the bits that matter survive the wrap-around. */
  lemma ShiftIn(buffer: nat, bits: nat, b: byte)
    requires bits <= 24
    ensures ((buffer * 256) % 0x1_0000_0000 + b) % Pow2(bits + 8) == buffer % Pow2(bits) * 256 + b
  {
    var d, e := Pow2(bits), Pow2(24 - bits);
    Pow2Sum(24 - bits, bits);
    Pow2Sum(bits, 8);
    SmallPowers();
    TwentyFour();
    TwoSteps(buffer, d, e);
    var lo := buffer % 0x100_0000;
    Quotient(buffer * 256, 0x1_0000_0000, buffer / 0x100_0000, lo * 256);
    AppendByte(lo, d, b);
  }

  lemma AppendByte(lo: nat, d: nat, b: byte)
    requires d > 0
    ensures (lo * 256 + b) % (d * 256) == lo % d * 256 + b
  {
    Division(lo, d);
    var s, t := lo / d, lo % d;
    MulAssoc(d, s, 256);
    MulAssoc(d, 256, s);
    Quotient(lo * 256 + b, d * 256, s, t * 256 + b);
  }

  lemma TwentyFour()
    ensures Pow2(24) == 0x100_0000
  {
    SmallPowers();
    Pow2Sum(12, 12);
  }

  /** The bits not yet emitted, as the low bits of the buffer hold them. */
  ghost predicate Holds(buffer: nat, bits: nat, unread: seq<bool>) {
    |unread| == bits && buffer % Pow2(bits) == Value(unread)
  }

  lemma HoldsMore(buffer: nat, unread: seq<bool>, b: byte)
    requires |unread| <= 24 && Holds(buffer, |unread|, unread)
    ensures Holds((buffer * 256) % 0x1_0000_0000 + b, |unread| + 8, unread + BitsOf(b, 8))
  {
    ShiftIn(buffer, |unread|, b);
    SmallPowers();
    ValueOfBits(b, 8);
    ValueConcat(unread, BitsOf(b, 8));
  }

  lemma HoldsLess(buffer: nat, unread: seq<bool>)
    requires |unread| >= 5 && Holds(buffer, |unread|, unread)
    ensures Holds(buffer, |unread| - 5, unread[5..])
    ensures buffer / Pow2(|unread| - 5) % 32 == Value(unread[..5])
  {
    var head, tail := unread[..5], unread[5..];
    assert unread == head + tail;
    ValueConcat(head, tail);
    ValueBound(tail);
    SplitOff(buffer, |unread|, Value(head), Value(tail));
  }

  lemma SplitOff(buffer: nat, bits: nat, h: nat, t: nat)
    requires 5 <= bits && buffer % Pow2(bits) == h * Pow2(bits - 5) + t && t < Pow2(bits - 5)
    ensures buffer / Pow2(bits - 5) % 32 == h && buffer % Pow2(bits - 5) == t
  {
    var p := Pow2(bits - 5);
    TakeFive(buffer, bits);
    Commute(h, p);
    Quotient(buffer % Pow2(bits), p, h, t);
  }

  /** The last, partial group: the remaining bits shifted up. */
  lemma HoldsRest(buffer: nat, unread: seq<bool>)
    requires 0 < |unread| < 5 && Holds(buffer, |unread|, unread)
    ensures buffer * Pow2(5 - |unread|) % 32 == Value(Padded(unread))
  {
    var k := 5 - |unread|;
    PaddedValue(unread);
    PowersOfFive(|unread|);
    ValueBound(unread);
    ShiftUp(buffer, Pow2(|unread|), Pow2(k), Value(unread));
  }

  /** A short group, completed with zero bits. */
  function Padded(unread: seq<bool>): (g: seq<bool>)
    requires |unread| <= 5
    ensures |g| == 5
  {
    unread + Repeat(false, 5 - |unread|)
  }

  lemma {:induction false} ValueOfZeros(k: nat)
    ensures Value(Repeat(false, k)) == 0
  {
    if k == 0 {
    } else {
      ValueOfZeros(k - 1);
      assert Repeat(false, k)[..k - 1] == Repeat(false, k - 1);
    }
  }

  lemma PaddedValue(unread: seq<bool>)
    requires |unread| <= 5
    ensures Value(Padded(unread)) == Value(unread) * Pow2(5 - |unread|)
  {
    ValueOfZeros(5 - |unread|);
    ValueThenZeros(unread, Repeat(false, 5 - |unread|));
  }

  lemma ValueThenZeros(bits: seq<bool>, zeros: seq<bool>)
    requires Value(zeros) == 0
    ensures Value(bits + zeros) == Value(bits) * Pow2(|zeros|)
  {
    ValueConcat(bits, zeros);
  }

  lemma PowersOfFive(n: nat)
    requires n <= 5
    ensures Pow2(n) * Pow2(5 - n) == 32
  {
    Pow2Sum(n, 5 - n);
    SmallPowers();
  }

  lemma ShiftUp(buffer: nat, d: nat, p: nat, v: nat)
    requires d > 0 && p > 0 && d * p == 32 && v < d && buffer % d == v
    ensures buffer * p % 32 == v * p
  {
    Division(buffer, d);
    var q := buffer / d;
    MulAssoc(d, q, p);
    MulAssoc(d, p, q);
    assert buffer * p == (d * q) * p + v * p;
    assert (d * q) * p == (d * p) * q;
    Distribute(p, d, v);
    AtLeast(p, d - v);
    Quotient(buffer * p, 32, q, v * p);
  }

  lemma {:induction false} BitsPrefix(bytes: seq<byte>, i: nat)
    requires i <= |bytes|
    ensures Bits(bytes[..i]) == Bits(bytes)[..8 * i]
  {
    if i < |bytes| {
      var init := bytes[..|bytes| - 1];
      BitsPrefix(init, i);
      assert init[..i] == bytes[..i];
    } else {
      assert bytes[..i] == bytes;
    }
  }

  /** The bits between the last emitted digit and byte `i`. */
  function Unread(bytes: seq<byte>, i: nat, emitted: nat): seq<bool>
    requires i <= |bytes| && 5 * emitted <= 8 * i
  {
    Bits(bytes)[5 * emitted..8 * i]
  }

  lemma UnreadGrows(bytes: seq<byte>, i: nat, emitted: nat)
    requires i < |bytes| && 5 * emitted <= 8 * i
    ensures Unread(bytes, i + 1, emitted) == Unread(bytes, i, emitted) + BitsOf(bytes[i], 8)
  {
    BitsPrefix(bytes, i + 1);
    BitsPrefix(bytes, i);
    assert bytes[..i + 1][..i] == bytes[..i];
    assert Bits(bytes[..i + 1]) == Bits(bytes[..i]) + BitsOf(bytes[i], 8);
    var all := Bits(bytes);
    assert all[..8 * (i + 1)][8 * i..] == BitsOf(bytes[i], 8);
  }

  lemma UnreadHead(bytes: seq<byte>, i: nat, emitted: nat)
    requires i <= |bytes| && 5 * emitted + 5 <= 8 * i
    ensures Unread(bytes, i, emitted)[..5] == Group(bytes, emitted)
    ensures Unread(bytes, i, emitted)[5..] == Unread(bytes, i, emitted + 1)
  {}

  /** The digits so far are the first groups. */
  predicate Prefix(bytes: seq<byte>, out: string) {
    5 * |out| <= 8 * |bytes| + 4 && forall k :: 0 <= k < |out| ==> 5 * k < 8 * |bytes| && out[k] == DigitAt(bytes, k)
  }

  lemma PrefixSnoc(bytes: seq<byte>, out: string, c: char)
    requires Prefix(bytes, out) && 5 * |out| < 8 * |bytes| && c == DigitAt(bytes, |out|)
    ensures Prefix(bytes, out + [c])
  {}

  /** The inner loop: emit while five bits are there, stop at `chars` digits. */
  method EmitGroups(bytes: seq<byte>, i: nat, chars: nat, before: string, buffer: nat, available: nat)
    returns (out: string, bits: nat)
    requires i <= |bytes| && available <= 12 && available == 8 * i - 5 * |before|
    requires Holds(buffer, available, Unread(bytes, i, |before|)) && Prefix(bytes, before)
    requires chars == 0 || |before| < chars
    ensures Prefix(bytes, out) && bits == 8 * i - 5 * |out|
    ensures Holds(buffer, bits, Unread(bytes, i, |out|))
    ensures (chars > 0 && |out| == chars) || (bits < 5 && (chars == 0 || |out| < chars))
  {
    out, bits := before, available;
    while bits >= 5
      invariant bits == 8 * i - 5 * |out| && Prefix(bytes, out)
      invariant Holds(buffer, bits, Unread(bytes, i, |out|))
      invariant chars == 0 || |out| < chars
    {
      EmitStep(bytes, i, out, buffer, bits);
      bits := bits - 5;
      out := out + [Digit(buffer / Pow2(bits) % 32)];
      if |out| == chars { return; }
    }
  }

  /** One digit taken off the buffer. */
  lemma EmitStep(bytes: seq<byte>, i: nat, out: string, buffer: nat, bits: nat)
    requires i <= |bytes| && 5 <= bits == 8 * i - 5 * |out| && Prefix(bytes, out)
    requires Holds(buffer, bits, Unread(bytes, i, |out|))
    ensures Holds(buffer, bits - 5, Unread(bytes, i, |out| + 1))
    ensures Prefix(bytes, out + [Digit(buffer / Pow2(bits - 5) % 32)])
  {
    HoldsLess(buffer, Unread(bytes, i, |out|));
    UnreadHead(bytes, i, |out|);
    PrefixSnoc(bytes, out, Digit(buffer / Pow2(bits - 5) % 32));
  }

  /** One byte shifted into the buffer. */
  lemma TakeByte(bytes: seq<byte>, i: nat, out: string, buffer: nat, bits: nat)
    requires i < |bytes| && bits == 8 * i - 5 * |out| && bits < 5 && Holds(buffer, bits, Unread(bytes, i, |out|))
    ensures Holds((buffer * 256) % 0x1_0000_0000 + bytes[i], bits + 8, Unread(bytes, i + 1, |out|))
  {
    HoldsMore(buffer, Unread(bytes, i, |out|), bytes[i]);
    UnreadGrows(bytes, i, |out|);
  }

  method ToCrockford(bytes: seq<byte>, chars: nat) returns (out: string)
    ensures |out| == Count(|bytes|, chars)
    ensures forall k :: 0 <= k < |out| ==> 5 * k < 8 * |bytes| && out[k] == DigitAt(bytes, k)
  {
    out := "";
    var buffer: nat, bits: nat := 0, 0;
    SmallPowers();
    for i := 0 to |bytes|
      invariant bits < 5 && bits == 8 * i - 5 * |out|
      invariant Holds(buffer, bits, Unread(bytes, i, |out|)) && Prefix(bytes, out)
      invariant chars == 0 || |out| < chars
    {
      TakeByte(bytes, i, out, buffer, bits);
      buffer := (buffer * 256) % 0x1_0000_0000 + bytes[i];
      bits := bits + 8;
      out, bits := EmitGroups(bytes, i + 1, chars, out, buffer, bits);
      if chars > 0 && |out| == chars {
        CountReached(|bytes|, chars);
        return;
      }
    }
    CountRest(|bytes|, |out|, chars);
    out := EmitRest(bytes, chars, out, buffer, bits);
  }

  /** The last, partial group, if a digit is still wanted. */
  method EmitRest(bytes: seq<byte>, chars: nat, before: string, buffer: nat, bits: nat) returns (out: string)
    requires Prefix(bytes, before) && bits < 5 && bits == 8 * |bytes| - 5 * |before|
    requires Holds(buffer, bits, Unread(bytes, |bytes|, |before|))
    ensures Prefix(bytes, out) && |out| == if bits > 0 && |before| < chars then |before| + 1 else |before|
  {
    out := before;
    if bits > 0 && |out| < chars {
      LastGroup(bytes, buffer, |out|);
      var c := Digit(buffer * Pow2(5 - bits) % 32);
      PrefixSnoc(bytes, out, c);
      out := out + [c];
    }
  }

  lemma CountReached(n: nat, chars: nat)
    requires 0 < chars && 5 * chars <= 8 * n + 4
    ensures Count(n, chars) == chars
  {}

  lemma CountRest(n: nat, m: nat, chars: nat)
    requires 0 <= 8 * n - 5 * m < 5 && (chars == 0 || m < chars)
    ensures Count(n, chars) == if 8 * n > 5 * m && m < chars then m + 1 else m
  {}

  lemma LastGroup(bytes: seq<byte>, buffer: nat, m: nat)
    requires 0 < 8 * |bytes| - 5 * m < 5
    requires Holds(buffer, 8 * |bytes| - 5 * m, Unread(bytes, |bytes|, m))
    ensures buffer * Pow2(5 - (8 * |bytes| - 5 * m)) % 32 == Value(Group(bytes, m))
  {
    var unread := Unread(bytes, |bytes|, m);
    HoldsRest(buffer, unread);
    assert Padded(unread) == Group(bytes, m);
  }

  // ------------------------------------------------------------ pairing codes

  predicate DigitsAgree(a: seq<byte>, b: seq<byte>, n: nat)
    requires |a| == |b| && 5 * n <= 8 * |a|
  {
    forall k :: 0 <= k < n ==> DigitAt(a, k) == DigitAt(b, k)
  }

  lemma AgreeStep(a: seq<byte>, b: seq<byte>, n: nat)
    requires |a| == |b| && 5 * n + 5 <= 8 * |a|
    ensures DigitsAgree(a, b, n + 1) <==> DigitsAgree(a, b, n) && DigitAt(a, n) == DigitAt(b, n)
  {}

  /** Two byte strings share their first `n` digits exactly when those digits'
      bits agree. */
  lemma {:induction false} SameDigits(a: seq<byte>, b: seq<byte>, n: nat)
    requires |a| == |b| && 5 * n <= 8 * |a|
    ensures DigitsAgree(a, b, n) <==> Bits(a)[..5 * n] == Bits(b)[..5 * n]
  {
    if n == 0 {
      assert Bits(a)[..0] == [] == Bits(b)[..0];
    } else {
      var k := n - 1;
      SameDigits(a, b, k);
      AgreeStep(a, b, k);
      SameDigit(a, b, k);
      SamePrefix(Bits(a), Bits(b), k);
    }
  }

  lemma SameDigit(a: seq<byte>, b: seq<byte>, k: nat)
    requires |a| == |b| && 5 * k + 5 <= 8 * |a|
    ensures DigitAt(a, k) == DigitAt(b, k) <==> Bits(a)[5 * k..5 * k + 5] == Bits(b)[5 * k..5 * k + 5]
  {
    var g, h := Group(a, k), Group(b, k);
    assert g == Bits(a)[5 * k..5 * k + 5] && h == Bits(b)[5 * k..5 * k + 5];
    GroupBound(g);
    GroupBound(h);
    if DigitAt(a, k) == DigitAt(b, k) {
      DigitIsInjective(Value(g), Value(h));
      ValueIsInjective(g, h);
    }
  }

  lemma SamePrefix(x: seq<bool>, y: seq<bool>, k: nat)
    requires 5 * k + 5 <= |x| && 5 * k + 5 <= |y|
    ensures x[..5 * (k + 1)] == y[..5 * (k + 1)] <==>
      x[..5 * k] == y[..5 * k] && x[5 * k..5 * k + 5] == y[5 * k..5 * k + 5]
  {
    var m := 5 * k;
    assert x[..m + 5] == x[..m] + x[m..m + 5] && y[..m + 5] == y[..m] + y[m..m + 5];
    assert x[..m] == x[..m + 5][..m] && x[m..m + 5] == x[..m + 5][m..];
    assert y[..m] == y[..m + 5][..m] && y[m..m + 5] == y[..m + 5][m..];
  }

  /** The number whose bytes, the most significant first, these are. */
  function Number(bytes: seq<byte>): nat {
    if bytes == [] then 0 else 256 * Number(bytes[..|bytes| - 1]) + bytes[|bytes| - 1]
  }

  lemma {:induction false} BitsSpellTheNumber(bytes: seq<byte>)
    ensures Value(Bits(bytes)) == Number(bytes)
  {
    if bytes == [] {
    } else {
      var init, last := bytes[..|bytes| - 1], bytes[|bytes| - 1];
      BitsSpellTheNumber(init);
      ByteBehind(Bits(init), last);
    }
  }

  lemma ByteBehind(bits: seq<bool>, b: byte)
    ensures Value(bits + BitsOf(b, 8)) == 256 * Value(bits) + b
  {
    ValueConcat(bits, BitsOf(b, 8));
    SmallPowers();
    ValueOfBits(b, 8);
  }

  lemma FiveOfMany(head: seq<bool>, g: seq<bool>, tail: seq<bool>)
    requires |g| == 5
    ensures Value(head + g + tail) / Pow2(|tail|) % 32 == Value(g)
  {
    ValueConcat(head + g, tail);
    ValueConcat(head, g);
    ValueBound(tail);
    GroupBound(g);
    SmallPowers();
    Commute(Value(head + g), Pow2(|tail|));
    Quotient(Value(head + g + tail), Pow2(|tail|), Value(head + g), Value(tail));
    Quotient(Value(head + g), 32, Value(head), Value(g));
  }

  /** A whole digit is five bits of the number the bytes are, counted from its top. */
  lemma DigitOfNumber(bytes: seq<byte>, k: nat)
    requires 5 * k + 5 <= 8 * |bytes|
    ensures DigitAt(bytes, k)
         == "0123456789ABCDEFGHJKMNPQRSTVWXYZ"[Number(bytes) / Pow2(8 * |bytes| - 5 * k - 5) % 32]
  {
    var all := Bits(bytes);
    var head, g, tail := all[..5 * k], all[5 * k..5 * k + 5], all[5 * k + 5..];
    assert all == head + g + tail && g == Group(bytes, k);
    BitsSpellTheNumber(bytes);
    FiveOfMany(head, g, tail);
  }

  /** The code of five random bytes, as a function. */
  function PairingCode(bytes: seq<byte>): string
    requires |bytes| == 5
  {
    seq(6, k requires 0 <= k < 6 => DigitAt(bytes, k))
  }

  method GeneratePairingCode(bytes: seq<byte>) returns (code: string)
    requires |bytes| == 5
    ensures code == PairingCode(bytes)
  {
    code := ToCrockford(bytes, 6);
  }

  /** Two draws share a pairing code exactly when their top 30 bits agree. */
  lemma PairingCodeIsThirtyBits(a: seq<byte>, b: seq<byte>)
    requires |a| == 5 && |b| == 5
    ensures PairingCode(a) == PairingCode(b) <==> Bits(a)[..30] == Bits(b)[..30]
  {
    SameDigits(a, b, 6);
    if DigitsAgree(a, b, 6) {
      assert PairingCode(a) == PairingCode(b);
    }
    if PairingCode(a) == PairingCode(b) {
      forall k | 0 <= k < 6 ensures DigitAt(a, k) == DigitAt(b, k) {
        assert PairingCode(a)[k] == PairingCode(b)[k];
      }
    }
  }
}
