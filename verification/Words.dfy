/** Bytes and little-endian words. */
module Words {
  import opened Bits

  type Byte = b: nat | b < 256

  function Pow256(n: nat): (p: nat)
    ensures p >= 1
  {
    if n == 0 then 1 else 256 * Pow256(n - 1)
  }

  function LittleEndian(v: nat, n: nat): (s: seq<Byte>)
    ensures |s| == n
  {
    if n == 0 then [] else [v % 256] + LittleEndian(v / 256, n - 1)
  }

  function Word(s: seq<Byte>): nat {
    if s == [] then 0 else s[0] + 256 * Word(s[1..])
  }

  lemma {:induction false} WordOfLittleEndian(v: nat, n: nat)
    requires v < Pow256(n)
    ensures Word(LittleEndian(v, n)) == v
  {
    if n > 0 {
      assert v / 256 < Pow256(n - 1);
      WordOfLittleEndian(v / 256, n - 1);
      assert LittleEndian(v, n)[1..] == LittleEndian(v / 256, n - 1);
    }
  }

  lemma Widths()
    ensures Pow256(8) == W64 && Pow256(4) == W32
  {
    assert Pow256(4) == W32;
    assert Pow256(8) == 256 * (256 * (256 * (256 * Pow256(4))));
  }
}
