/** Bytes, and the big-endian integers written by Go's encoding/binary. */
module Bytes {

  type Byte = x: int | 0 <= x < 256

  const TWO_16: nat := 0x1_0000
  const TWO_32: nat := 0x1_0000_0000
  const TWO_64: nat := 0x1_0000_0000_0000_0000

  /** The number written most significant byte first. */
  function Uint(b: seq<Byte>): nat {
    if b == [] then 0 else Uint(b[..|b| - 1]) * 256 + b[|b| - 1] as int
  }

  function Put16(n: nat): (b: seq<Byte>)
    requires n < TWO_16
    ensures |b| == 2 && Uint(b) == n
  {
    var b: seq<Byte> := [n / 256, n % 256];
    UintSnoc([], n / 256);
    UintSnoc([n / 256], n % 256);
    assert [n / 256] + [n % 256] == b;
    b
  }

  function Put32(n: nat): (b: seq<Byte>)
    requires n < TWO_32
    ensures |b| == 4 && Uint(b) == n
  {
    var hi, lo := Put16(n / TWO_16), Put16(n % TWO_16);
    UintConcat2(hi, lo);
    hi + lo
  }

  function Put64(n: nat): (b: seq<Byte>)
    requires n < TWO_64
    ensures |b| == 8 && Uint(b) == n
  {
    var hi, lo := Put32(n / TWO_32), Put32(n % TWO_32);
    UintConcat2(hi, lo[..2]);
    UintConcat2([], lo[..2]);
    assert [] + lo[..2] == lo[..2];
    UintConcat2(hi + lo[..2], lo[2..]);
    UintConcat2(lo[..2], lo[2..]);
    assert lo == lo[..2] + lo[2..];
    assert hi + lo == hi + lo[..2] + lo[2..];
    hi + lo
  }

  lemma {:induction false} TwoBytes(w: seq<Byte>)
    requires |w| == 2
    ensures Uint(w) == w[0] as int * 256 + w[1] as int < TWO_16
  {
    assert w[..1][..0] == [];
    assert Uint(w[..1]) == w[0] as int;
  }

  /** Most significant byte first. */
  lemma {:induction false} BigEndian16(n: nat)
    requires n < TWO_16
    ensures Put16(n) == [n / 256, n % 256]
  {
    TwoBytes(Put16(n));
  }

  lemma {:induction false} BigEndian32(n: nat)
    requires n < TWO_32
    ensures var hi, lo := n / TWO_16, n % TWO_16; Put32(n) == [hi / 256, hi % 256, lo / 256, lo % 256]
  {
    var hi, lo := n / TWO_16, n % TWO_16;
    BigEndian16(hi);
    BigEndian16(lo);
    UintConcat2(Put16(hi), Put16(lo));
    UintIsInjective(Put32(n), Put16(hi) + Put16(lo));
  }

  /** Among byte strings of one length a number has only one spelling. */
  lemma {:induction false} UintIsInjective(a: seq<Byte>, b: seq<Byte>)
    requires |a| == |b| && Uint(a) == Uint(b)
    ensures a == b
    decreases |a|
  {
    if a != [] {
      var n := |a| - 1;
      assert Uint(a[..n]) == Uint(a) / 256 && Uint(b[..n]) == Uint(b) / 256;
      UintIsInjective(a[..n], b[..n]);
      assert a == a[..n] + [a[n]] && b == b[..n] + [b[n]];
    }
  }

  lemma UintSnoc(a: seq<Byte>, x: Byte)
    ensures Uint(a + [x]) == Uint(a) * 256 + x as int
  {
    assert (a + [x])[..|a|] == a;
  }

  lemma UintConcat2(a: seq<Byte>, w: seq<Byte>)
    requires |w| == 2
    ensures Uint(a + w) == Uint(a) * TWO_16 + Uint(w)
  {
    assert a + w == a + [w[0]] + [w[1]];
    assert w == [] + [w[0]] + [w[1]];
    UintSnoc(a + [w[0]], w[1]);
    UintSnoc(a, w[0]);
    UintSnoc([] + [w[0]], w[1]);
    UintSnoc([], w[0]);
  }
}
