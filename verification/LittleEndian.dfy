/** Fixed-width little-endian fields in a sequence of bytes. */
module LittleEndian {
  import opened Prelude

  function Le(s: seq<Byte>): nat {
    if s == [] then 0 else s[0] + 256 * Le(s[1..])
  }

  function ToLe(v: nat, n: nat): (s: seq<Byte>)
    ensures |s| == n
  {
    if n == 0 then [] else [v % 256] + ToLe(v / 256, n - 1)
  }

  function Pow256(n: nat): (p: nat)
    ensures p >= 1
  {
    if n == 0 then 1 else 256 * Pow256(n - 1)
  }

  lemma {:induction false} LeRoundTrip(v: nat, n: nat)
    requires v < Pow256(n)
    ensures Le(ToLe(v, n)) == v
  {
    if n > 0 {
      LeRoundTrip(v / 256, n - 1);
      assert ToLe(v, n)[1..] == ToLe(v / 256, n - 1);
    }
  }

  lemma Powers()
    ensures Pow256(1) == 0x100 && Pow256(2) == 0x1_0000
    ensures Pow256(4) == 0x1_0000_0000 && Pow256(8) == 0x1_0000_0000_0000_0000
  {
    assert Pow256(1) == 256 * Pow256(0);
    assert Pow256(2) == 256 * Pow256(1);
    assert Pow256(3) == 256 * Pow256(2);
    assert Pow256(4) == 256 * Pow256(3);
    assert Pow256(5) == 256 * Pow256(4);
    assert Pow256(6) == 256 * Pow256(5);
    assert Pow256(7) == 256 * Pow256(6);
    assert Pow256(8) == 256 * Pow256(7);
  }

  lemma {:induction false} LeStep(s: seq<Byte>, k: nat)
    requires k < |s|
    ensures Le(s[k..]) == s[k] + 256 * Le(s[k + 1..])
  {
    assert s[k..][1..] == s[k + 1..];
  }

  /** Four bytes, the least significant first. */
  function Word(a: int, b: int, c: int, d: int): int {
    a + 0x100 * b + 0x1_0000 * c + 0x100_0000 * d
  }

  /** The least significant byte comes first. */
  lemma {:induction false} BytesOf(s: seq<Byte>)
    ensures |s| == 1 ==> Le(s) == s[0]
    ensures |s| == 2 ==> Le(s) == Word(s[0], s[1], 0, 0)
    ensures |s| == 4 ==> Le(s) == Word(s[0], s[1], s[2], s[3])
    ensures |s| == 8 ==> Le(s) == Word(s[0], s[1], s[2], s[3]) + 0x1_0000_0000 * Word(s[4], s[5], s[6], s[7])
  {
    assert s[0..] == s && s[|s|..] == [];
    if |s| == 1 || |s| == 2 || |s| == 4 || |s| == 8 {
      forall k | 0 <= k < |s|
        ensures Le(s[k..]) == s[k] + 256 * Le(s[k + 1..])
      {
        LeStep(s, k);
      }
      hide Le;
      assert Le([]) == 0 by { LeNothing(); }
    }
  }

  lemma LeNothing()
    ensures Le([]) == 0
  {
  }

  /** The n-byte field at offset off. */
  function Field(f: seq<Byte>, off: nat, n: nat): nat
    requires off + n <= |f|
  {
    Le(f[off..off + n])
  }

  function SetField(f: seq<Byte>, off: nat, n: nat, v: nat): (g: seq<Byte>)
    requires off + n <= |f|
    ensures |g| == |f|
  {
    f[..off] + ToLe(v, n) + f[off + n..]
  }

  lemma SetFieldHere(f: seq<Byte>, off: nat, n: nat, v: nat)
    requires off + n <= |f| && v < Pow256(n)
    ensures Field(SetField(f, off, n, v), off, n) == v
  {
    hide Le, ToLe, Pow256;
    LeRoundTrip(v, n);
    var g, b := SetField(f, off, n, v)[off..off + n], ToLe(v, n);
    forall k | 0 <= k < n
      ensures g[k] == b[k]
    {
    }
    assert g == b;
  }

  lemma SetFieldElsewhere(f: seq<Byte>, off: nat, n: nat, v: nat, off': nat, n': nat)
    requires off + n <= |f| && off' + n' <= |f| && (off + n <= off' || off' + n' <= off)
    ensures SetField(f, off, n, v)[off'..off' + n'] == f[off'..off' + n']
    ensures Field(SetField(f, off, n, v), off', n') == Field(f, off', n')
  {
    hide Le, ToLe;
    var g, h := SetField(f, off, n, v)[off'..off' + n'], f[off'..off' + n'];
    forall k | 0 <= k < n'
      ensures g[k] == h[k]
    {
    }
    assert g == h;
  }
}
