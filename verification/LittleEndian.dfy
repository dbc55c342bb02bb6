/** Little-endian byte sequences and the numbers they stand for. */
module LittleEndian {
  import opened Words

  function Value(bytes: seq<u8>): (n: nat)
  {
    if bytes == [] then 0 else bytes[0] + 0x100 * Value(bytes[1..])
  }

  function Bytes(n: nat, k: nat): (bytes: seq<u8>)
    ensures |bytes| == k
  {
    if k == 0 then [] else [n % 0x100] + Bytes(n / 0x100, k - 1)
  }

  function Pow256(k: nat): (p: nat)
    ensures p > 0
  {
    if k == 0 then 1 else 0x100 * Pow256(k - 1)
  }

  /** The j-th byte is the j-th digit in base 256, of any number. */
  lemma {:induction false} BytesAreDigits(n: nat, k: nat, j: nat)
    requires j < k
    ensures Bytes(n, k)[j] == n / Pow256(j) % 0x100
  {
    if j > 0 {
      BytesAreDigits(n / 0x100, k - 1, j - 1);
      DivDiv(n, Pow256(j - 1));
    }
  }

  lemma DivDiv(n: nat, p: nat)
    requires p > 0
    ensures 0x100 * p > 0 && n / 0x100 / p == n / (0x100 * p)
  {
    var a, q := n / 0x100, n / 0x100 / p;
    MulAssoc(0x100, p, q);
    DivUnique(n, 0x100 * p, q, n % 0x100 + 0x100 * (a - p * q));
  }

  lemma {:induction false} ValueBound(bytes: seq<u8>)
    ensures Value(bytes) < Pow256(|bytes|)
  {
    if bytes != [] {
      ValueBound(bytes[1..]);
    }
  }

  lemma {:induction false} ValueOfBytes(n: nat, k: nat)
    requires n < Pow256(k)
    ensures Value(Bytes(n, k)) == n
  {
    if k > 0 {
      ValueOfBytes(n / 0x100, k - 1);
      assert Bytes(n, k)[1..] == Bytes(n / 0x100, k - 1);
    }
  }

  lemma {:induction false} ValueConcat(a: seq<u8>, b: seq<u8>)
    ensures Value(a + b) == Value(a) + Pow256(|a|) * Value(b)
  {
    if a == [] {
      assert a + b == b;
    } else {
      ValueConcat(a[1..], b);
      assert (a + b)[1..] == a[1..] + b;
      MulAssoc(0x100, Pow256(|a| - 1), Value(b));
    }
  }

  lemma ValueOf1(b: seq<u8>)
    requires |b| == 1
    ensures Value(b) == b[0]
  {
    assert b[1..] == [];
  }

  lemma ValueOf2(b: seq<u8>)
    requires |b| == 2
    ensures Value(b) == b[0] + 0x100 * (b[1] as int)
  {
    assert Value(b[1..]) == b[1] + 0x100 * Value(b[1..][1..]);
    assert b[1..][1..] == [];
  }

  lemma ValueOf4(b: seq<u8>)
    requires |b| == 4
    ensures Value(b) == b[0] + 0x100 * (b[1] as int) + 0x1_0000 * (b[2] as int) + 0x100_0000 * (b[3] as int)
  {
    ValueConcat(b[..2], b[2..]);
    assert b == b[..2] + b[2..];
    ValueOf2(b[..2]);
    ValueOf2(b[2..]);
  }

  lemma Pow256Small()
    ensures Pow256(0) == 1 && Pow256(1) == 0x100 && Pow256(2) == 0x1_0000
    ensures Pow256(3) == 0x100_0000 && Pow256(4) == 0x1_0000_0000
    ensures Pow256(8) == 0x1_0000_0000_0000_0000
  {
  }
}
