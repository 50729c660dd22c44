/** Big-endian byte strings as the SNFI MAC path sends opcodes and
    addresses: most significant byte first. */
module BigEndian {
  import opened Arith

  function Pow256(k: nat): (r: nat)
    ensures r >= 1
  {
    if k == 0 then 1 else 256 * Pow256(k - 1)
  }

  /** The byte whose value is `x`, built by counting up from zero; the
      `& 0xff` of the source leaves a value below 256, which this turns
      into a byte. A direct `x as bv8` is correct too, but the solver
      relates its value back to `x` only at great cost. */
  function ToByte(x: nat): (b: bv8)
    requires x < 256
    ensures b as nat == x
  {
    if x == 0 then 0 else ToByte(x - 1) + 1
  }

  /** Byte `i` (0 = sent first) of the `n`-byte big-endian form of `v`:
      `(v >> ((n - i - 1) * 8)) & 0xff`. */
  function BeByte(v: nat, n: nat, i: nat): bv8
    requires i < n
  {
    ToByte((v / Pow256(n - i - 1)) % 256)
  }

  function BeBytes(v: nat, n: nat): (s: seq<bv8>)
    ensures |s| == n
  {
    seq(n, i requires 0 <= i < n => BeByte(v, n, i))
  }

  /** The number a big-endian byte string denotes. */
  function BeValue(s: seq<bv8>): nat
  {
    if s == [] then 0 else BeValue(s[..|s| - 1]) * 256 + s[|s| - 1] as nat
  }

  /** Reading the bytes back gives the value modulo 256^n: the low `n`
      bytes, nothing lost and nothing reordered. */
  lemma {:induction false} BeBytesValue(v: nat, n: nat)
    ensures BeValue(BeBytes(v, n)) == v % Pow256(n)
    decreases n
  {
    var s := BeBytes(v, n);
    if n > 0 {
      var t := BeBytes(v / 256, n - 1);
      forall i | 0 <= i < n - 1
        ensures s[i] == t[i]
      {
        BeByteShift(v, n, i);
      }
      assert s[..n - 1] == t;
      assert s[n - 1] as nat == v % 256;
      BeBytesValue(v / 256, n - 1);
      assert BeValue(s) == ((v / 256) % Pow256(n - 1)) * 256 + v % 256;
      DivDiv(v, 256, Pow256(n - 1));
    }
  }

  /** Dropping the last byte of a big-endian form is shifting the value
      right by one byte. */
  lemma BeByteShift(v: nat, n: nat, i: nat)
    requires i < n - 1
    ensures BeByte(v, n, i) == BeByte(v / 256, n - 1, i)
  {
    assert Pow256(n - i - 1) == 256 * Pow256(n - 1 - i - 1);
    DivDiv(v, 256, Pow256(n - 1 - i - 1));
  }

  /** Dividing by `a` and then by `b` is dividing by `a * b`, and the
      remainder modulo `a * b` is made of the two remainders. */
  lemma DivDiv(v: nat, a: nat, b: nat)
    requires a >= 1 && b >= 1
    ensures v / (a * b) == (v / a) / b
    ensures v % (a * b) == ((v / a) % b) * a + v % a
  {
    var q := v / a;
    var r := v % a;
    var t := q / b;
    var u := q % b;
    DivModSplit(v, a);
    DivModSplit(q, b);
    assert v == (t * b + u) * a + r;
    assert (t * b + u) * a == t * (a * b) + u * a;
    MulMonoInt(a, u, b - 1);
    assert (b - 1) * a == a * b - a;
    DivModUnique(v, a * b, t, u * a + r);
  }
}
