// Base 128 varints and ZigZag (nanopb: pb_encode.c, pb_decode.c).
module Varint {
  import opened Bytes

  type Octets = seq<Byte>

  function Pow128(n: nat): (p: nat)
    ensures p > 0
  {
    if n == 0 then 1 else 128 * Pow128(n - 1)
  }

  // The canonical encoding: seven bits a byte, low bits first, the top bit of
  // every byte but the last set.
  function VarintBytes(v: nat): (s: Octets)
    ensures |s| > 0
  {
    if v < 128 then [v] else [v % 128 + 128] + VarintBytes(v / 128)
  }

  lemma {:induction false} VarintLength(v: nat, n: nat)
    requires n > 0 && v < Pow128(n)
    ensures |VarintBytes(v)| <= n
  {
    if v >= 128 {
      assert n > 1;
      VarintLength(v / 128, n - 1);
    }
  }

  lemma TenBytes()
    ensures TWO64 < Pow128(10) && Pow128(9) == TWO63 && Pow128(5) == 0x8_0000_0000 && Pow128(4) == 0x1000_0000
    ensures Pow128(10) == 128 * TWO63
  {
    assert Pow128(1) == 0x80;
    assert Pow128(2) == 0x4000;
    assert Pow128(3) == 0x20_0000;
    assert Pow128(4) == 0x1000_0000;
    assert Pow128(5) == 0x8_0000_0000;
    assert Pow128(6) == 0x400_0000_0000;
    assert Pow128(7) == 0x2_0000_0000_0000;
    assert Pow128(8) == 0x100_0000_0000_0000;
    assert Pow128(9) == 0x8000_0000_0000_0000;
    assert Pow128(10) == 128 * Pow128(9);
  }

  // pb_encode_varint: the bytes it hands to pb_write in one call. Ten bytes of
  // buffer are enough for every 64-bit value.
  method EncodeVarint(value: nat) returns (buffer: Octets)
    ensures buffer == VarintBytes(value)
    ensures value < TWO64 ==> |buffer| <= 10
  {
    hide VarintBytes, Pow128;
    TenBytes();
    if value < TWO64 { VarintLength(value, 10); }
    OneMoreByte(value);
    if value <= 0x7F {
      return [value];
    }
    buffer := [];
    var left := value;
    ghost var last: Byte := 0;
    while left > 0
      invariant 0 <= left && (left == 0 ==> buffer != [] && buffer[|buffer| - 1] % 128 == last)
      invariant left > 0 ==> VarintBytes(value) == buffer + VarintBytes(left)
      invariant left == 0 ==> VarintBytes(value) == buffer[..|buffer| - 1] + [last]
    {
      NextByte(buffer, left);
      last := left % 128;
      buffer := buffer + [left % 128 + 128];
      left := left / 128;
    }
    assert buffer[|buffer| - 1 := last] == buffer[..|buffer| - 1] + [last];
    buffer := buffer[|buffer| - 1 := buffer[|buffer| - 1] % 128];
  }

  // One turn of the loop: seven bits go out.
  lemma NextByte(buffer: Octets, left: nat)
    requires left > 0
    ensures var more := buffer + [left % 128 + 128];
            && more[..|more| - 1] == buffer && more[|more| - 1] % 128 == left % 128
            && buffer + VarintBytes(left) == if left / 128 > 0 then more + VarintBytes(left / 128) else buffer + [left % 128]
  {
    hide VarintBytes;
    OneMoreByte(left);
    LowDigit(left);
    assert buffer + ([left % 128 + 128] + VarintBytes(left / 128)) == buffer + [left % 128 + 128] + VarintBytes(left / 128);
  }

  lemma LowDigit(v: nat)
    ensures (v % 128 + 128) % 128 == v % 128 && (v < 128 ==> v / 128 == 0 && v % 128 == v) && (v >= 128 ==> v / 128 > 0)
  {
  }

  // ---- what the decoders accept --------------------------------------------

  // Bytes up to and including the first whose top bit is clear.
  function VarintSize(s: Octets): Option<nat>
  {
    if s == [] then None
    else if s[0] < 128 then Some(1)
    else
      match VarintSize(s[1..])
      case None => None
      case Some(n) => Some(n + 1)
  }

  // The number that n bytes stand for.
  function Number(s: Octets): nat
  {
    if s == [] then 0 else s[0] % 128 + 128 * Number(s[1..])
  }

  // The 64-bit decoder: at most ten bytes, and what does not fit 64 bits is
  // shifted out.
  function Decode64(s: Octets): Option<(nat, nat)>
  {
    match VarintSize(s)
    case None => None
    case Some(n) => if n > 10 then None else SizeBound(s); Some((Number(s[..n]) % TWO64, n))
  }

  lemma {:induction false} SizeBound(s: Octets)
    ensures VarintSize(s).Some? ==> 1 <= VarintSize(s).value <= |s|
  {
    if s != [] && s[0] >= 128 { SizeBound(s[1..]); }
  }

  // The 32-bit decoder from its second byte on: `result` holds the bits so far,
  // `bitpos` is the place of the next byte in a counter of eight bits, `at`
  // counts bytes.
  function Decode32From(s: Octets, at: nat, result: nat, bitpos: nat): Option<(nat, nat)>
    requires at <= |s|
    decreases |s| - at
  {
    if at == |s| then None
    else
      var byte := s[at];
      var next := (bitpos + 7) % 256;
      if bitpos >= 32 && byte % 128 != 0 && (result / 0x8000_0000 == 0 || byte != SignExtension(bitpos)) then None
      else
        var more := if bitpos >= 32 then result else ShiftedIn(result, byte % 128, bitpos);
        if byte >= 128 then Decode32From(s, at + 1, more, next)
        else if next == 35 && (byte / 16) % 8 != 0 then None
        else Some((more, at + 1))
  }

  // result |= digit << bitpos, on 32 bits.
  function ShiftedIn(result: nat, digit: nat, bitpos: nat): nat
  {
    Or(result, digit * Shift(bitpos) % TWO32)
  }

  // Bitwise or.
  function Or(a: nat, b: nat): nat
  {
    if a == 0 then b
    else if b == 0 then a
    else 2 * Or(a / 2, b / 2) + Max(a % 2, b % 2)
  }

  // What a byte past the 32nd bit must be in a negative number.
  function SignExtension(bitpos: nat): Byte
  {
    if bitpos < 63 then 0xFF else 0x01
  }

  function Shift(bits: nat): nat
  {
    if bits == 0 then 1 else 2 * Shift(bits - 1)
  }

  function Decode32(s: Octets): Option<(nat, nat)>
  {
    if s == [] then None
    else if s[0] < 128 then Some((s[0], 1))
    else Decode32From(s, 1, s[0] % 128, 7)
  }

  // ---- arithmetic -----------------------------------------------------------

  lemma ShiftBy7(n: nat)
    ensures Shift(7 * (n + 1)) == 128 * Shift(7 * n)
  {
    var b := 7 * n;
    assert Shift(b + 1) == 2 * Shift(b);
    assert Shift(b + 2) == 4 * Shift(b);
    assert Shift(b + 3) == 8 * Shift(b);
    assert Shift(b + 4) == 16 * Shift(b);
    assert Shift(b + 5) == 32 * Shift(b);
    assert Shift(b + 6) == 64 * Shift(b);
    assert Shift(b + 7) == 128 * Shift(b);
  }

  lemma {:induction false} ShiftIsPow(n: nat)
    ensures Shift(7 * n) == Pow128(n)
  {
    if n > 0 {
      ShiftIsPow(n - 1);
      ShiftBy7(n - 1);
    }
  }

  // Bits that do not overlap are added.
  lemma {:induction false} OrAdds(a: nat, d: nat, k: nat)
    requires a < Shift(k)
    ensures Or(a, d * Shift(k)) == a + d * Shift(k)
  {
    hide Or;
    OrIs(a, d * Shift(k));
    if k == 0 {
      assert a == 0;
    } else {
      var half := d * Shift(k - 1);
      assert d * Shift(k) == 2 * half by { Twice(d, Shift(k - 1)); }
      OrAdds(a / 2, d, k - 1);
      OrDoubles(a, half);
    }
  }

  lemma OrDoubles(a: nat, half: nat)
    ensures Or(a, 2 * half) == 2 * Or(a / 2, half) + a % 2
  {
    hide Or;
    assert (2 * half) / 2 == half && (2 * half) % 2 == 0;
    OrIs(a, 2 * half);
    OrIs(a / 2, half);
  }

  lemma OrIs(a: nat, b: nat)
    ensures Or(a, b) == if a == 0 then b else if b == 0 then a else 2 * Or(a / 2, b / 2) + Max(a % 2, b % 2)
  {
  }

  lemma Twice(d: nat, p: nat)
    ensures d * (2 * p) == 2 * (d * p)
  {
  }

  lemma {:induction false} OrFits(a: nat, b: nat, k: nat)
    requires a < Shift(k) && b < Shift(k)
    ensures Or(a, b) < Shift(k)
  {
    if k > 0 && a > 0 && b > 0 { OrFits(a / 2, b / 2, k - 1); }
  }

  lemma ThirtyTwoBits()
    ensures Shift(32) == TWO32 && Shift(28) == 0x1000_0000
  {
    TenBytes();
    ShiftIsPow(4);
    assert Shift(28) == 0x1000_0000;
    assert Shift(29) == 0x2000_0000 && Shift(30) == 0x4000_0000 && Shift(31) == 0x8000_0000;
  }

  lemma SmallMod(n: nat)
    requires n < TWO32
    ensures n % TWO32 == n
  {
  }

  lemma LowBits(result: nat, digit: nat, k: nat, p: nat)
    requires p == Shift(k) && result < p && digit < 128 && 128 * p <= TWO32
    ensures ShiftedIn(result, digit, k) == (result + digit * p) % TWO32
  {
    hide Shift, Or;
    DigitFits(result, digit, p);
    OrAdds(result, digit, k);
    SmallMod(digit * p);
    SmallMod(result + digit * p);
  }

  // Of the fifth byte only four bits are left.
  lemma TopBits(result: nat, digit: nat)
    requires result < 0x1000_0000 && digit < 128
    ensures ShiftedIn(result, digit, 28) == (result + digit * 0x1000_0000) % TWO32
  {
    hide Shift, Or;
    ThirtyTwoBits();
    var low, high := digit % 16, digit / 16;
    assert digit * 0x1000_0000 == low * 0x1000_0000 + TWO32 * high;
    PlusMultiple(low * 0x1000_0000, high, TWO32);
    PlusMultiple(result + low * 0x1000_0000, high, TWO32);
    SmallMod(low * 0x1000_0000);
    SmallMod(result + low * 0x1000_0000);
    OrAdds(result, low, 28);
  }

  // Within the first 32 bits no two bytes overlap.
  lemma FirstRound(result: nat, digit: nat, at: nat)
    requires 0 < at <= 4 && result < Pow128(at) && digit < 128
    ensures Shift(7 * at) == Pow128(at)
    ensures ShiftedIn(result, digit, 7 * at) == (result + digit * Pow128(at)) % TWO32
  {
    hide Shift, Pow128, ShiftedIn;
    ShiftIsPow(at);
    SmallPowers();
    if at < 4 {
      LowBits(result, digit, 7 * at, Pow128(at));
    } else {
      TopBits(result, digit);
    }
  }

  lemma {:induction false} NumberAppend(s: Octets, b: Byte)
    ensures Number(s + [b]) == Number(s) + (b % 128) * Pow128(|s|)
  {
    if s == [] {
      assert s + [b] == [b];
    } else {
      assert (s + [b])[1..] == s[1..] + [b];
      NumberAppend(s[1..], b);
      Assoc(b % 128, Pow128(|s| - 1));
    }
  }

  lemma Assoc(d: nat, p: nat)
    ensures 128 * (d * p) == d * (128 * p)
  {
  }

  lemma AddMod(a: nat, b: nat, m: nat)
    requires m > 0
    ensures (a % m + b) % m == (a + b) % m
  {
    var q := a / m;
    assert a == m * q + a % m;
    PlusMultiple(a % m + b, q, m);
    assert a + b == a % m + b + m * q;
  }

  lemma PlusMultiple(a: nat, q: nat, m: nat)
    requires m > 0
    ensures (a + m * q) % m == a % m
  {
    var d, r := a / m, a % m;
    assert a + m * q == m * (d + q) + r by {
      assert a == m * d + r;
      assert m * (d + q) == m * d + m * q;
    }
    ModUnique(m, d + q, r);
  }

  lemma {:induction false} HighPowers(n: nat)
    requires n >= 5
    ensures Pow128(n) % TWO32 == 0
  {
    if n == 5 {
      TenBytes();
    } else {
      HighPowers(n - 1);
      var q := Pow128(n - 1) / TWO32;
      assert Pow128(n - 1) == TWO32 * q;
      assert Pow128(n) == TWO32 * (128 * q);
      PlusMultiple(0, 128 * q, TWO32);
    }
  }

  lemma MultipleMod(a: nat, b: nat, p: nat, m: nat)
    requires m > 0 && p % m == 0
    ensures (a + b * p) % m == a % m
  {
    var q := p / m;
    assert p == m * q;
    assert b * p == m * (b * q) by { assert b * (m * q) == m * (b * q); }
    PlusMultiple(a, b * q, m);
  }

  // Bits past the 32nd do not change the number modulo 2^32.
  lemma NextBits(number: nat, digit: nat, at: nat)
    ensures (number + digit * Pow128(at)) % TWO32 ==
            if at >= 5 then number % TWO32 else (number % TWO32 + digit * Pow128(at)) % TWO32
  {
    if at >= 5 {
      HighPowers(at);
      MultipleMod(number, digit, Pow128(at), TWO32);
    } else {
      AddMod(number, digit * Pow128(at), TWO32);
    }
  }

  // ---- 32 and 64 bits agree -----------------------------------------------------

  lemma NextReads(s: Octets, at: nat, result: nat)
    requires 0 < at < |s| && result == Number(s[..at]) % TWO32
    ensures (if 7 * at >= 32 then result else ShiftedIn(result, s[at] % 128, 7 * at)) == Number(s[..at + 1]) % TWO32
  {
    hide ShiftedIn, Pow128, Number;
    assert s[..at + 1] == s[..at] + [s[at]];
    NumberAppend(s[..at], s[at]);
    NumberBound(s[..at]);
    NextBits(Number(s[..at]), s[at] % 128, at);
    if at <= 4 {
      BelowTwo32(at, Number(s[..at]));
      FirstRound(result, s[at] % 128, at);
    }
  }

  lemma BelowTwo32(at: nat, number: nat)
    requires at <= 4 && number < Pow128(at)
    ensures number % TWO32 == number
  {
    SmallPowers();
  }

  // In up to 37 bytes the counter does not wrap: the 32-bit decoder yields the
  // number modulo 2^32, whatever its checks let through.
  lemma {:induction false} Decode32FromReads(s: Octets, at: nat, result: nat)
    requires 0 < at <= |s| && at <= 37 && result == Number(s[..at]) % TWO32
    ensures var r := Decode32From(s, at, result, 7 * at % 256);
            r.Some? && r.value.1 <= Min(37, |s|) ==> r.value.0 == Number(s[..r.value.1]) % TWO32
    decreases |s| - at
  {
    hide ShiftedIn, Number, Decode32From;
    if at < |s| && at < 37 {
      NextReads(s, at, result);
      BeforeWrap(at);
      OneByteTaken(s, at, result, 7 * at);
      Decode32FromReads(s, at + 1, Number(s[..at + 1]) % TWO32);
    } else {
      Decode32FromTakes(s, at, result, 7 * at % 256);
    }
  }

  lemma BeforeWrap(at: nat)
    requires at < 37
    ensures 7 * at % 256 == 7 * at && (7 * at + 7) % 256 == 7 * (at + 1) % 256
  {
  }

  // The decoder stops at a byte or goes on with the next.
  lemma OneByteTaken(s: Octets, at: nat, result: nat, bitpos: nat)
    requires at < |s|
    ensures var more := if bitpos >= 32 then result else ShiftedIn(result, s[at] % 128, bitpos);
            var r := Decode32From(s, at, result, bitpos);
            r == None || r == Decode32From(s, at + 1, more, (bitpos + 7) % 256) || r == Some((more, at + 1))
  {
    hide ShiftedIn;
  }

  lemma {:induction false} NumberBound(s: Octets)
    ensures Number(s) < Pow128(|s|)
  {
    if s != [] { NumberBound(s[1..]); }
  }

  // It takes one whole varint, however long.
  lemma {:induction false} Decode32FromTakes(s: Octets, at: nat, result: nat, bitpos: nat)
    requires at <= |s|
    ensures var r := Decode32From(s, at, result, bitpos);
            r.Some? ==> at < r.value.1 <= |s| && VarintSize(s[at..]) == Some(r.value.1 - at)
    decreases |s| - at
  {
    if at < |s| {
      hide ShiftedIn;
      assert s[at..][1..] == s[at + 1..];
      if s[at] >= 128 {
        var more := if bitpos >= 32 then result else ShiftedIn(result, s[at] % 128, bitpos);
        Decode32FromTakes(s, at + 1, more, (bitpos + 7) % 256);
      }
    }
  }

  lemma {:induction false} Decode32FromFits(s: Octets, at: nat, result: nat, bitpos: nat)
    requires at <= |s| && result < TWO32
    ensures var r := Decode32From(s, at, result, bitpos); r.Some? ==> r.value.0 < TWO32
    decreases |s| - at
  {
    if at < |s| {
      hide Or, Shift;
      var digit := s[at] % 128;
      ThirtyTwoBits();
      OrFits(result, digit * Shift(bitpos) % TWO32, 32);
      var more := if bitpos >= 32 then result else ShiftedIn(result, digit, bitpos);
      Decode32FromFits(s, at + 1, more, (bitpos + 7) % 256);
    }
  }

  lemma {:induction false} SizeFrom(s: Octets, at: nat)
    requires at <= |s| && forall i | 0 <= i < at :: s[i] >= 128
    ensures VarintSize(s) == match VarintSize(s[at..]) case None => None case Some(n) => Some(n + at)
  {
    if at > 0 {
      SizeFrom(s[1..], at - 1);
      assert s[1..][at - 1..] == s[at..];
    } else {
      assert s[0..] == s;
    }
  }

  lemma NumberOfOne(b: Byte)
    ensures Number([b]) == b % 128 < TWO32
  {
  }

  // Whatever its checks let through, the 32-bit decoder takes one whole varint,
  // and up to 37 bytes yields it modulo 2^32.
  lemma Decode32Reads(s: Octets)
    ensures Decode32(s).Some? ==>
              var (v, n) := Decode32(s).value;
              VarintSize(s) == Some(n) && n <= |s| && v < TWO32 && (n <= 37 ==> v == Number(s[..n]) % TWO32)
  {
    hide Decode32From, Number;
    if s != [] {
      assert s[..1] == [s[0]];
      NumberOfOne(s[0]);
      if s[0] >= 128 {
        Decode32FromReads(s, 1, s[0] % 128);
        Decode32FromTakes(s, 1, s[0] % 128, 7);
        Decode32FromFits(s, 1, s[0] % 128, 7);
        SizeFrom(s, 1);
      }
    }
  }

  // The first n bytes are one varint.
  predicate OneVarint(s: Octets, n: nat)
  {
    0 < n <= |s| && s[n - 1] < 128 && forall i | 0 <= i < n - 1 :: s[i] >= 128
  }

  // A byte past the 32nd bit may pad the number, or extend the sign of a negative one.
  predicate Extends(s: Octets, i: nat, negative: bool)
    requires i < |s|
  {
    s[i] % 128 == 0 || (negative && s[i] == if i <= 8 then 255 else 1)
  }

  predicate AllExtend(s: Octets, lo: nat, hi: nat, negative: bool)
    requires hi <= |s|
  {
    forall i | lo <= i < hi :: Extends(s, i, negative)
  }

  // Up to 37 bytes the 32-bit decoder takes exactly these varints: those of up to
  // four bytes; those of five whose last has no bit past the 32nd; and longer ones
  // in which every byte from the sixth on extends the number. Bits of the fifth
  // past the 32nd are then ignored.
  lemma Decode32Accepts(s: Octets, n: nat)
    requires OneVarint(s, n) && n <= 37
    ensures Decode32(s).Some? <==>
            n <= 4 || (n == 5 && s[4] < 16) || (n >= 6 && AllExtend(s, 5, n, s[4] % 16 >= 8))
  {
    hide Decode32From, Number, Extends;
    if n > 1 {
      var at := Min(n - 1, 5);
      UpToFifth(s, at);
      if n <= 5 {
        LastOfFive(s, at, Number(s[..at]) % TWO32);
      } else {
        SignOfFive(s);
        ExtensionsOnly(s, n, 5, Number(s[..5]) % TWO32);
      }
    }
  }

  lemma LastOfFive(s: Octets, at: nat, result: nat)
    requires 0 < at <= 4 && at < |s| && s[at] < 128
    ensures Decode32From(s, at, result, 7 * at).Some? <==> at < 4 || s[4] < 16
  {
    hide ShiftedIn;
  }

  lemma {:induction false} UpToFifth(s: Octets, at: nat)
    requires 0 < at <= 5 && at < |s| && forall i | 0 <= i < at :: s[i] >= 128
    ensures Decode32(s) == Decode32From(s, at, Number(s[..at]) % TWO32, 7 * at)
    decreases at
  {
    hide Number;
    if at == 1 {
      hide Decode32From;
      assert s[..1] == [s[0]];
      NumberOfOne(s[0]);
    } else {
      hide Decode32, Decode32From, ShiftedIn;
      UpToFifth(s, at - 1);
      NextReads(s, at - 1, Number(s[..at - 1]) % TWO32);
      FirstFive(s, at - 1, Number(s[..at - 1]) % TWO32);
    }
  }

  lemma FirstFive(s: Octets, at: nat, result: nat)
    requires 0 < at < 5 && at < |s| && s[at] >= 128
    ensures Decode32From(s, at, result, 7 * at) == Decode32From(s, at + 1, ShiftedIn(result, s[at] % 128, 7 * at), 7 * (at + 1))
  {
    hide ShiftedIn;
  }

  // Bit 31 is the fourth bit of the fifth byte.
  lemma SignOfFive(s: Octets)
    requires |s| >= 5
    ensures (Number(s[..5]) % TWO32) / 0x8000_0000 != 0 <==> s[4] % 16 >= 8
  {
    hide Number;
    FifthDigit(s);
    FourthBit(Number(s[..4]), s[4] % 128);
  }

  lemma FifthDigit(s: Octets)
    requires |s| >= 5
    ensures var d: nat := s[4] % 128;
            Number(s[..4]) < 0x1000_0000 && Number(s[..5]) == Number(s[..4]) + d * 0x1000_0000
  {
    hide Number, Pow128;
    SmallPowers();
    assert s[..5] == s[..4] + [s[4]];
    NumberAppend(s[..4], s[4]);
    NumberBound(s[..4]);
  }

  lemma FourthBit(low: nat, d: nat)
    requires low < 0x1000_0000 && d < 128
    ensures ((low + d * 0x1000_0000) % TWO32) / 0x8000_0000 != 0 <==> d % 16 >= 8
  {
    var rest := low + d % 16 * 0x1000_0000;
    assert low + d * 0x1000_0000 == rest + TWO32 * (d / 16);
    PlusMultiple(rest, d / 16, TWO32);
    SmallMod(rest);
  }

  lemma {:induction false} ExtensionsOnly(s: Octets, n: nat, at: nat, result: nat)
    requires OneVarint(s, n) && 5 <= at < n <= 37
    ensures Decode32From(s, at, result, 7 * at).Some? <==> AllExtend(s, at, n, result / 0x8000_0000 != 0)
    decreases n - at
  {
    if at < n - 1 {
      hide Extends;
      ExtensionStep(s, at, result);
      ExtensionsOnly(s, n, at + 1, result);
    } else {
      ExtensionStep(s, at, result);
    }
  }

  lemma ExtensionStep(s: Octets, at: nat, result: nat)
    requires 5 <= at <= 36 && at < |s| && (at == 36 ==> s[at] < 128)
    ensures var r := Decode32From(s, at, result, 7 * at);
            if !Extends(s, at, result / 0x8000_0000 != 0) then r == None
            else if s[at] >= 128 then r == Decode32From(s, at + 1, result, 7 * (at + 1))
            else r.Some?
  {
    hide ShiftedIn;
    var bitpos := 7 * at;
    assert bitpos >= 35 && (at <= 8 <==> bitpos < 63);
    var next := (bitpos + 7) % 256;
    assert next != 35 && (at < 36 ==> next == 7 * (at + 1));
  }

  // One byte more and it does not: the counter is back at 3, and a bit far past
  // the 32nd lands inside the result.
  lemma CounterWraps(s: Octets)
    requires |s| == 38 && (forall i | 0 <= i < 37 :: s[i] == 128) && s[37] == 1
    ensures Decode32(s) == Some((8, 38)) && VarintSize(s) == Some(38) && Number(s) % TWO32 == 0
  {
    hide Decode32From, Number, Pow128;
    assert s == s[..37] + [1];
    NumberAppend(s[..37], 1);
    NumberOfZeros(s[..37]);
    HighPowers(37);
    PaddingPasses(s, 1);
    LastBit(s);
    Decode32Reads(s);
  }

  lemma LastBit(s: Octets)
    requires |s| == 38 && s[37] == 1
    ensures Decode32From(s, 37, 0, 3) == Some((8, 38))
  {
    assert Shift(1) == 2 && Shift(2) == 4 && Shift(3) == 8;
  }

  lemma {:induction false} NumberOfZeros(s: Octets)
    requires forall b | b in s :: b == 128
    ensures Number(s) == 0
  {
    if s != [] {
      assert s[0] in s && forall b | b in s[1..] :: b in s;
      NumberOfZeros(s[1..]);
    }
  }

  // Bytes without bits pass the checks and leave the result alone.
  lemma ZeroByte(s: Octets, at: nat, bitpos: nat)
    requires at < |s| && s[at] == 128
    ensures Decode32From(s, at, 0, bitpos) == Decode32From(s, at + 1, 0, (bitpos + 7) % 256)
  {
    hide Shift;
    assert ShiftedIn(0, 0, bitpos) == 0;
  }

  lemma {:induction false} PaddingPasses(s: Octets, at: nat)
    requires |s| == 38 && 0 < at <= 37 && forall i | 0 <= i < 37 :: s[i] == 128
    ensures Decode32From(s, at, 0, 7 * at % 256) == Decode32From(s, 37, 0, 3)
    decreases 37 - at
  {
    hide Decode32From;
    if at < 37 {
      ZeroByte(s, at, 7 * at % 256);
      PaddingPasses(s, at + 1);
    }
  }

  // Whenever both decoders accept, they read the same bytes and agree modulo
  // 2^32; the 64-bit one accepts whatever the 32-bit one does in ten bytes.
  lemma DecodersAgree(s: Octets)
    ensures Decode32(s).Some? && Decode32(s).value.1 <= 10 ==>
              && Decode64(s).Some?
              && Decode64(s).value.1 == Decode32(s).value.1
              && Decode32(s).value.0 == Decode64(s).value.0 % TWO32
  {
    Decode32Reads(s);
    if Decode32(s).Some? && Decode32(s).value.1 <= 10 {
      var x := Number(s[..Decode32(s).value.1]);
      var q := x / TWO64;
      assert x == x % TWO64 + TWO32 * (TWO32 * q);
      PlusMultiple(x % TWO64, TWO32 * q, TWO32);
    }
  }

  // ---- round trips -----------------------------------------------------------------

  lemma {:induction false} BytesStandFor(v: nat, rest: Octets)
    ensures var s := VarintBytes(v) + rest;
            VarintSize(s) == Some(|VarintBytes(v)|) && Number(s[..|VarintBytes(v)|]) == v
  {
    var s := VarintBytes(v) + rest;
    assert s[..|VarintBytes(v)|] == VarintBytes(v);
    if v >= 128 {
      BytesStandFor(v / 128, rest);
      assert s[1..] == VarintBytes(v / 128) + rest;
      assert (VarintBytes(v / 128) + rest)[..|VarintBytes(v / 128)|] == VarintBytes(v / 128);
      assert VarintBytes(v)[1..] == VarintBytes(v / 128);
    } else {
      assert VarintBytes(v)[1..] == [];
    }
  }

  lemma VarintRoundTrip64(v: nat, rest: Octets)
    requires v < TWO64
    ensures 1 <= |VarintBytes(v)| <= 10
    ensures Decode64(VarintBytes(v) + rest) == Some((v, |VarintBytes(v)|))
  {
    hide VarintBytes, VarintSize, Number, Pow128;
    BytesStandFor(v, rest);
    TenBytes();
    VarintLength(v, 10);
  }

  // A byte that is not the last, within the first 32 bits.
  lemma Decode32Next(s: Octets, at: nat, result: nat, p: nat)
    requires at < |s| && s[at] >= 128 && 0 < at <= 4 && p == Pow128(at) && result < p && result + (s[at] % 128) * p < TWO32
    ensures Decode32From(s, at, result, 7 * at) == Decode32From(s, at + 1, result + (s[at] % 128) * p, 7 * (at + 1))
  {
    hide Decode32From, ShiftedIn, Pow128;
    FirstRound(result, s[at] % 128, at);
    SmallMod(result + (s[at] % 128) * p);
    Decode32Step(s, at, result, 7 * at);
  }

  lemma Decode32Step(s: Octets, at: nat, result: nat, bitpos: nat)
    requires at < |s| && s[at] >= 128 && bitpos < 32
    ensures Decode32From(s, at, result, bitpos) == Decode32From(s, at + 1, ShiftedIn(result, s[at] % 128, bitpos), bitpos + 7)
  {
    hide ShiftedIn;
  }

  lemma Decode32Last(s: Octets, at: nat, result: nat, p: nat)
    requires at < |s| && s[at] < 128 && 0 < at <= 4 && p == Pow128(at) && result < p && result + s[at] * p < TWO32
    requires at == 4 ==> s[at] < 16
    ensures Decode32From(s, at, result, 7 * at) == Some((result + s[at] * p, at + 1))
  {
    hide Decode32From, ShiftedIn, Pow128;
    FirstRound(result, s[at], at);
    SmallMod(result + s[at] * p);
    Decode32Stop(s, at, result, 7 * at);
  }

  lemma Decode32Stop(s: Octets, at: nat, result: nat, bitpos: nat)
    requires at < |s| && s[at] < 128 && bitpos < 32 && (bitpos == 28 ==> s[at] < 16)
    ensures Decode32From(s, at, result, bitpos) == Some((ShiftedIn(result, s[at], bitpos), at + 1))
  {
    hide ShiftedIn;
    assert s[at] % 128 == s[at];
  }

  lemma {:induction false} Decode32FromAccepts(prefix: Octets, v: nat, result: nat, p: nat, rest: Octets)
    requires 0 < |prefix| <= 4 && p == Pow128(|prefix|) && result < p && result + v * p < TWO32
    ensures Decode32From(prefix + VarintBytes(v) + rest, |prefix|, result, 7 * |prefix|) ==
            Some((result + v * p, |prefix| + |VarintBytes(v)|))
    decreases v
  {
    hide Decode32From;
    var at := |prefix|;
    var s := prefix + VarintBytes(v) + rest;
    TenBytes();
    SmallPowers();
    if v < 128 {
      assert s[at] == v;
      Decode32Last(s, at, result, p);
    } else {
      var low: Byte := v % 128 + 128;
      var d := v % 128;
      assert at < 4;
      Distribute(d, v / 128, p);
      assert v == d + 128 * (v / 128);
      assert s[at] == low && low % 128 == d;
      assert s == prefix + [low] + VarintBytes(v / 128) + rest;
      DigitFits(result, d, p);
      Decode32Next(s, at, result, p);
      Decode32FromAccepts(prefix + [low], v / 128, result + d * p, 128 * p, rest);
    }
  }

  lemma SmallPowers()
    ensures Pow128(1) == 128 && Pow128(2) == 0x4000 && Pow128(3) == 0x20_0000 && Pow128(4) == 0x1000_0000
  {
    TenBytes();
  }

  lemma Distribute(d: nat, q: nat, p: nat)
    ensures (d + 128 * q) * p == d * p + q * (128 * p) && q * (128 * p) >= 0
  {
    assert (128 * q) * p == q * (128 * p);
  }

  lemma Product(a: nat, b: nat)
    ensures a * b >= 0
  {
  }

  lemma DigitFits(result: nat, d: nat, p: nat)
    requires result < p && d < 128
    ensures 0 <= result + d * p < 128 * p
  {
    Product(d, p);
    Product(127 - d, p);
    assert 127 * p == d * p + (127 - d) * p;
  }

  lemma VarintRoundTrip32(v: nat, rest: Octets)
    requires v < TWO32
    ensures Decode32(VarintBytes(v) + rest) == Some((v, |VarintBytes(v)|))
  {
    hide Decode32From, VarintBytes;
    OneMoreByte(v);
    if v >= 128 {
      var low: Byte := v % 128 + 128;
      assert VarintBytes(v) + rest == [low] + VarintBytes(v / 128) + rest;
      SmallPowers();
      Decode32FromAccepts([low], v / 128, v % 128, 128, rest);
    }
  }

  // The first five bytes of a long number leave its low 32 bits.
  lemma {:induction false} Decode32FromKeepsLow(prefix: Octets, v: nat, result: nat, p: nat, m: nat, rest: Octets)
    requires 0 < |prefix| <= 5 && p == Pow128(|prefix|) && m == Pow128(5 - |prefix|) && v >= m && result < p
    ensures |VarintBytes(v)| >= 6 - |prefix|
    ensures var s := prefix + VarintBytes(v) + rest;
            Decode32From(s, |prefix|, result % TWO32, 7 * |prefix|) ==
            Decode32From(s, 5, (result + v % m * p) % TWO32, 35)
    decreases v
  {
    hide Decode32From;
    var at := |prefix|;
    var s := prefix + VarintBytes(v) + rest;
    if at == 5 {
      assert m == 1 && v % m == 0 && v % m * p == 0;
    } else {
      PowerStep(4 - at);
      PowerStep(at);
      hide Pow128, VarintBytes;
      var d, q, n := v % 128, v / 128, Pow128(4 - at);
      AtLeast(v, n);
      var low: Byte := d + 128;
      OneMoreByte(v);
      NextPrefix(prefix, low, VarintBytes(q), rest);
      assert [low] + VarintBytes(q) == VarintBytes(v) && low % 128 == d;
      Decode32Adds(s, at, result, d, p);
      DigitFits(result, d, p);
      var more: nat := result + d * p;
      Decode32FromKeepsLow(prefix + [low], q, more, 128 * p, n, rest);
      LowDigits(v, n, p);
      assert more + q % n * (128 * p) == result + v % m * p;
    }
  }

  lemma AtLeast(v: nat, n: nat)
    requires v >= 128 * n >= 128
    ensures v >= 128 && v / 128 >= n
  {
  }

  lemma NextPrefix(prefix: Octets, low: Byte, tail: Octets, rest: Octets)
    ensures prefix + ([low] + tail) + rest == prefix + [low] + tail + rest
    ensures (prefix + ([low] + tail) + rest)[|prefix|] == low && |prefix| < |prefix + ([low] + tail) + rest|
  {
  }

  lemma PowerStep(n: nat)
    ensures Pow128(n + 1) == 128 * Pow128(n) >= 128
  {
  }

  lemma Decode32Adds(s: Octets, at: nat, result: nat, d: nat, p: nat)
    requires 0 < at < 5 && at < |s| && s[at] >= 128 && d == s[at] % 128 && p == Pow128(at) && result < p
    ensures Decode32From(s, at, result % TWO32, 7 * at) == Decode32From(s, at + 1, (result + d * p) % TWO32, 7 * (at + 1))
  {
    hide ShiftedIn, Pow128;
    SmallPowers();
    FirstRound(result, d, at);
  }

  lemma LowDigits(v: nat, m: nat, p: nat)
    requires m > 0
    ensures (v % 128) * p + (v / 128) % m * (128 * p) == v % (128 * m) * p
  {
    var d, q := v % 128, v / 128;
    var e, r := q / m, q % m;
    assert v == (128 * m) * e + (128 * r + d) by {
      assert v == 128 * q + d && q == m * e + r;
      assert 128 * (m * e) == (128 * m) * e;
    }
    assert 128 * r + d < 128 * m;
    ModUnique(128 * m, e, 128 * r + d);
    assert (128 * r + d) * p == r * (128 * p) + d * p by { Distribute(d, r, p); }
  }

  // A negative 32-bit number is encoded as ten bytes, and the 32-bit decoder
  // takes them for its low 32 bits.
  lemma SignExtendedRoundTrip32(v: nat, rest: Octets)
    requires TWO64 - 0x8000_0000 <= v < TWO64
    ensures Decode32(VarintBytes(v) + rest) == Some((v % TWO32, 10)) && |VarintBytes(v)| == 10
  {
    hide Decode32From, VarintBytes, Pow128;
    var low: Byte := v % 128 + 128;
    var w := v / 128;
    var s := VarintBytes(v) + rest;
    OneMoreByte(v);
    assert s == [low] + VarintBytes(w) + rest;
    FirstDigit(v);
    Decode32FromKeepsLow([low], w, v % 128, 128, 0x1000_0000, rest);
    LowHalf(v);
    LastFive(v);
    TailOfTen(VarintBytes(v), rest);
    LongTail(s, v % TWO32);
  }

  lemma FirstDigit(v: nat)
    requires TWO64 - 0x8000_0000 <= v < TWO64
    ensures v >= 128 && v / 128 >= 0x1000_0000 && v % 128 % TWO32 == v % 128 && (v % 128 + 128) % 128 == v % 128
    ensures Pow128(1) == 128 && Pow128(4) == 0x1000_0000
  {
    SmallPowers();
  }

  lemma TailOfTen(bytes: Octets, rest: Octets)
    requires |bytes| == 10 && bytes[5..] == [255, 255, 255, 255, 1]
    ensures var s := bytes + rest;
            |s| >= 10 && s[5] == 255 && s[6] == 255 && s[7] == 255 && s[8] == 255 && s[9] == 1
  {
    assert bytes[5] == bytes[5..][0] && bytes[6] == bytes[5..][1] && bytes[7] == bytes[5..][2];
    assert bytes[8] == bytes[5..][3] && bytes[9] == bytes[5..][4];
  }

  lemma LowHalf(v: nat)
    requires TWO64 - 0x8000_0000 <= v < TWO64
    ensures (v % 128 + (v / 128) % Pow128(4) * 128) % TWO32 == v % TWO32 >= 0x8000_0000
  {
    hide Pow128;
    SmallPowers();
    LowDigits(v, 0x1000_0000, 1);
    var low := v % 0x8_0000_0000;
    PlusMultiple(low, 8 * (v / 0x8_0000_0000), TWO32);
    PlusMultiple(v - TWO32 * 0xFFFF_FFFF, 0xFFFF_FFFF, TWO32);
  }

  lemma LastFive(v: nat)
    requires TWO64 - 0x8000_0000 <= v < TWO64
    ensures |VarintBytes(v)| == 10 && VarintBytes(v)[5..] == [255, 255, 255, 255, 1]
  {
    hide VarintBytes;
    var a, b, c, d := FourShifts(v);
    OneMoreByte(v); OneMoreByte(a); OneMoreByte(b); OneMoreByte(c); OneMoreByte(d);
    UpperFive();
  }

  lemma FourShifts(v: nat) returns (a: nat, b: nat, c: nat, d: nat)
    requires TWO64 - 0x8000_0000 <= v < TWO64
    ensures v >= 128 && a == v / 128 >= 128 && b == a / 128 >= 128 && c == b / 128 >= 128 && d == c / 128 >= 128
    ensures d / 128 == 0x1FFF_FFFF
  {
    a := v / 128;
    assert 0x1FF_FFFF_FF00_0000 <= a < 0x200_0000_0000_0000;
    b := a / 128;
    assert 0x3_FFFF_FFFE_0000 <= b < 0x4_0000_0000_0000;
    c := b / 128;
    assert 0x7FF_FFFF_FC00 <= c < 0x800_0000_0000;
    d := c / 128;
    assert 0xF_FFFF_FFF8 <= d < 0x10_0000_0000;
  }

  lemma UpperFive()
    ensures VarintBytes(0x1FFF_FFFF) == [255, 255, 255, 255, 1]
  {
    hide VarintBytes;
    OneMoreByte(0x1FFF_FFFF); OneMoreByte(0x3F_FFFF); OneMoreByte(0x7FFF); OneMoreByte(0xFF); OneMoreByte(1);
  }

  lemma OneMoreByte(v: nat)
    ensures VarintBytes(v) == if v < 128 then [v] else [v % 128 + 128] + VarintBytes(v / 128)
  {
  }

  lemma LongTail(s: Octets, result: nat)
    requires |s| >= 10 && s[5] == 255 && s[6] == 255 && s[7] == 255 && s[8] == 255 && s[9] == 1
    requires 0x8000_0000 <= result < TWO32
    ensures Decode32From(s, 5, result, 35) == Some((result, 10))
  {
    assert Decode32From(s, 9, result, 63) == Some((result, 10));
    assert Decode32From(s, 8, result, 56) == Some((result, 10));
    assert Decode32From(s, 7, result, 49) == Some((result, 10));
    assert Decode32From(s, 6, result, 42) == Some((result, 10));
  }

  const MIN64: int := -0x8000_0000_0000_0000

  // ---- ZigZag -------------------------------------------------------------------------

  // pb_encode_svarint: shift the 64-bit pattern left, and invert it when negative.
  function ZigZag(value: int): (z: nat)
    requires MIN64 <= value < TWO63
    ensures z < TWO64
  {
    if value < 0 then TWO64 - 1 - (2 * (value + TWO64)) % TWO64 else (2 * value) % TWO64
  }

  // pb_decode_svarint: the value as a signed 64-bit number.
  function UnZigZag(z: nat): (value: int)
    requires z < TWO64
    ensures MIN64 <= value < TWO63
  {
    if z % 2 == 1 then Signed(TWO64 - 1 - z / 2, TWO64) else Signed(z / 2, TWO64)
  }

  // A two's complement pattern read as a number.
  function Signed(pattern: nat, modulus: nat): int
    requires pattern < modulus
  {
    if pattern < modulus / 2 then pattern else pattern - modulus
  }

  lemma ZigZagInverts(value: int)
    requires MIN64 <= value < TWO63
    ensures UnZigZag(ZigZag(value)) == value
  {
    if value < 0 {
      assert 2 * (value + TWO64) == (2 * value + TWO64) + TWO64;
      assert (2 * (value + TWO64)) % TWO64 == 2 * value + TWO64;
    }
  }

  lemma UnZigZagInverts(z: nat)
    requires z < TWO64
    ensures ZigZag(UnZigZag(z)) == z
  {
    ZigZagInverts(UnZigZag(z));
    if z % 2 == 1 {
      var value := UnZigZag(z);
      assert value == -(z / 2) - 1;
      assert (2 * (value + TWO64)) % TWO64 == 2 * value + TWO64;
    }
  }
}
