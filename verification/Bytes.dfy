// Bytes, little-endian integers and the option type shared by every model.
module Bytes {

  type Byte = x: int | 0 <= x < 256

  datatype Option<+T> = None | Some(value: T)

  const TWO32: nat := 0x1_0000_0000
  const TWO63: nat := 0x8000_0000_0000_0000
  const TWO64: nat := 0x1_0000_0000_0000_0000

  function Min(a: nat, b: nat): nat { if a <= b then a else b }

  function Max(a: nat, b: nat): nat { if a >= b then a else b }

  function Pow256(n: nat): (p: nat)
    ensures p > 0
  {
    if n == 0 then 1 else 256 * Pow256(n - 1)
  }

  // The n low-order bytes of v, least significant first.
  function ToLittleEndian(v: nat, n: nat): (s: seq<Byte>)
    ensures |s| == n
  {
    if n == 0 then [] else [v % 256] + ToLittleEndian(v / 256, n - 1)
  }

  function FromLittleEndian(s: seq<Byte>): (v: nat)
    ensures v < Pow256(|s|)
  {
    if s == [] then 0 else s[0] + 256 * FromLittleEndian(s[1..])
  }

  lemma {:induction false} LittleEndianRoundTrip(v: nat, n: nat)
    requires v < Pow256(n)
    ensures FromLittleEndian(ToLittleEndian(v, n)) == v
  {
    if n > 0 {
      LittleEndianRoundTrip(v / 256, n - 1);
      assert ToLittleEndian(v, n)[1..] == ToLittleEndian(v / 256, n - 1);
    }
  }

  lemma {:induction false} LittleEndianInverse(s: seq<Byte>)
    ensures ToLittleEndian(FromLittleEndian(s), |s|) == s
  {
    if s != [] {
      LittleEndianInverse(s[1..]);
      LowByte(s[0], FromLittleEndian(s[1..]));
      assert s == [s[0]] + s[1..];
    }
  }

  lemma LowByte(b: Byte, q: nat)
    ensures (b + 256 * q) % 256 == b && (b + 256 * q) / 256 == q
  {
  }

  lemma Pow256Values()
    ensures Pow256(2) == 65536
    ensures Pow256(4) == TWO32
    ensures Pow256(8) == TWO64
  {
    assert Pow256(2) == 65536;
    assert Pow256(3) == 0x100_0000;
    assert Pow256(4) == TWO32;
    assert Pow256(5) == 0x100_0000_0000;
    assert Pow256(6) == 0x1_0000_0000_0000;
    assert Pow256(7) == 0x100_0000_0000_0000;
    assert Pow256(8) == TWO64;
  }

  lemma MultipleAtLeast(m: nat, k: nat)
    requires k >= 1
    ensures m * k >= m
  {
    assert m * k == m * (k - 1) + m;
  }

  lemma ModUnique(m: nat, q: nat, r: nat)
    requires r < m
    ensures (m * q + r) % m == r
  {
    var d, e := (m * q + r) / m, (m * q + r) % m;
    assert m * q + r == m * d + e;
    if d < q {
      MultipleAtLeast(m, q - d);
    } else if d > q {
      MultipleAtLeast(m, d - q);
    }
  }

  lemma DivDiv(n: nat, m: nat, p: nat)
    requires m > 0 && p > 0 && m * p > 0
    ensures n / (m * p) == n / m / p
  {
    var a, d := DivMod(n, m);
    var q, r := DivMod(a, p);
    Composed(m, p, a, d, q, r);
    Quotient(n, m * p, q, m * r + d);
  }

  lemma DivMod(n: nat, m: nat) returns (q: nat, r: nat)
    requires m > 0
    ensures n == m * q + r && r < m && n / m == q
  {
    q, r := n / m, n % m;
  }

  lemma Composed(m: nat, p: nat, a: nat, d: nat, q: nat, r: nat)
    requires a == p * q + r && r < p && d < m
    ensures m * a + d == (m * p) * q + (m * r + d)
    ensures m * r + d < m * p
  {
    assert m * (p * q) == (m * p) * q;
    Monotone(m, r + 1, p);
  }

  lemma Monotone(m: nat, a: nat, b: nat)
    requires a <= b
    ensures m * a <= m * b
  {
    assert m * b == m * a + m * (b - a);
  }

  lemma Quotient(n: nat, m: nat, q: nat, r: nat)
    requires n == m * q + r && r < m
    ensures n / m == q
  {
    var e, f := n / m, n % m;
    assert n == m * e + f;
    if e < q { Monotone(m, e + 1, q); } else if e > q { Monotone(m, q + 1, e); }
  }

  // The size low-order bytes of n, one by one, from the lowest up.
  predicate SpellsWord(s: seq<Byte>, size: nat, n: nat)
  {
    |s| == size && forall i | 0 <= i < size :: s[i] == n / Pow256(i) % 256
  }

  lemma {:induction false} WordIsSpelled(n: nat, size: nat)
    ensures SpellsWord(ToLittleEndian(n, size), size, n)
  {
    if size > 0 {
      WordIsSpelled(n / 256, size - 1);
      var s, more := ToLittleEndian(n, size), ToLittleEndian(n / 256, size - 1);
      assert s == [n % 256] + more && Pow256(0) == 1 && n / 1 == n;
      hide ToLittleEndian, Pow256;
      forall i | 0 < i < size ensures s[i] == n / Pow256(i) % 256 {
        NextByteOf(n, i - 1);
        assert s[i] == more[i - 1];
      }
    }
  }

  lemma NextByteOf(n: nat, i: nat)
    ensures n / Pow256(i + 1) == n / 256 / Pow256(i)
  {
    DivDiv(n, 256, Pow256(i));
  }

  lemma WordSpelledOnce(s: seq<Byte>, size: nat, n: nat)
    ensures SpellsWord(s, size, n) <==> s == ToLittleEndian(n, size)
  {
    hide ToLittleEndian, Pow256;
    WordIsSpelled(n, size);
    var t := ToLittleEndian(n, size);
    if SpellsWord(s, size, n) {
      forall i | 0 <= i < size ensures s[i] == t[i] {
      }
    }
  }

  lemma SliceOfSlice(s: seq<Byte>, start: nat, end: nat, a: nat, b: nat)
    requires start <= end <= |s| && a <= b <= end - start
    ensures s[start..end][a..b] == s[start + a..start + b]
  {
    forall i | 0 <= i < b - a ensures s[start..end][a..b][i] == s[start + a..start + b][i] {
    }
    assert |s[start..end][a..b]| == |s[start + a..start + b]|;
  }

  // a is b with some elements left out.
  ghost predicate PartOf<T>(a: seq<T>, b: seq<T>)
    decreases |b|
  {
    if a == [] then true
    else b != [] && ((a[0] == b[0] && PartOf(a[1..], b[1..])) || PartOf(a, b[1..]))
  }

  // Leaving out the elements in front.
  lemma {:induction false} PartOfTail<T>(a: seq<T>, b: seq<T>, low: nat, i: nat)
    requires low <= i <= |b| && PartOf(a, b[i..])
    ensures PartOf(a, b[low..])
    decreases i - low
  {
    if low < i && a != [] {
      PartOfTail(a, b, low + 1, i);
      assert b[low..][1..] == b[low + 1..];
    }
  }

  lemma PartOfFirst<T>(a: seq<T>, b: seq<T>, low: nat, i: nat)
    requires low <= i < |b| && PartOf(a, b[i + 1..])
    ensures PartOf([b[i]] + a, b[low..])
  {
    assert ([b[i]] + a)[1..] == a && b[i..][1..] == b[i + 1..];
    PartOfTail([b[i]] + a, b, low, i);
  }
}
