/** Unsigned bytes and the arithmetic the XBee API frame format is built on:
    the additive checksum and big-endian multi-byte fields. */
module Bytes {

  /** The C `uint8_t`. */
  type Byte = x: int | 0 <= x < 256

  /** The C `uint16_t` and `uint64_t` of the address fields. */
  type Uint16 = x: int | 0 <= x < 0x1_0000
  type Uint64 = x: int | 0 <= x < 0x1_0000_0000_0000_0000

  datatype Option<T> = None | Some(value: T)

  lemma ConcatAssoc<T>(a: seq<T>, b: seq<T>, c: seq<T>)
    ensures a + (b + c) == (a + b) + c
  {
  }

  /** A prefix cut in two. */
  lemma SplitAt<T>(q: seq<T>, i: nat, j: nat)
    requires i <= j <= |q|
    ensures q[..i] + q[i..j] == q[..j]
  {
  }

  /** A slice inside the left part of a concatenation. */
  lemma SliceOfAppendLeft<T>(a: seq<T>, b: seq<T>, i: nat, j: nat)
    requires i <= j <= |a|
    ensures (a + b)[i..j] == a[i..j]
  {
  }

  /** The right part of a concatenation, sliced back out. */
  lemma SliceOfAppendRight<T>(a: seq<T>, b: seq<T>)
    ensures (a + b)[|a|..|a| + |b|] == b
  {
  }

  /** A slice of a prefix is a slice of the whole. */
  lemma SliceOfPrefix<T>(q: seq<T>, n: nat, i: nat, j: nat)
    requires i <= j <= n <= |q|
    ensures q[..n][i..j] == q[i..j]
  {
  }

  /** Plain (unbounded) sum of the bytes of `s`. */
  function Sum(s: seq<Byte>): nat
  {
    if s == [] then 0 else Sum(s[..|s| - 1]) + s[|s| - 1]
  }

  lemma SumAppendByte(s: seq<Byte>, b: Byte)
    ensures Sum(s + [b]) == Sum(s) + b
  {
    assert (s + [b])[..|s|] == s;
  }

  lemma {:induction false} SumAppend(a: seq<Byte>, b: seq<Byte>)
    ensures Sum(a + b) == Sum(a) + Sum(b)
    decreases |b|
  {
    if b == [] {
      assert a + b == a;
    } else {
      var b' := b[..|b| - 1];
      assert a + b == (a + b') + [b[|b| - 1]];
      SumAppendByte(a + b', b[|b| - 1]);
      SumAppend(a, b');
      assert b == b' + [b[|b| - 1]];
      SumAppendByte(b', b[|b| - 1]);
    }
  }

  /** Replacing one byte changes the sum by exactly the difference. */
  lemma {:induction false} SumUpdate(s: seq<Byte>, i: nat, v: Byte)
    requires i < |s|
    ensures Sum(s[i := v]) == Sum(s) - s[i] + v
    decreases |s|
  {
    var n := |s| - 1;
    if i < n {
      assert s[i := v][..n] == s[..n][i := v];
      SumUpdate(s[..n], i, v);
    } else {
      assert s[i := v][..n] == s[..n];
    }
  }

  /** The 8-bit running checksum after one more byte is the low byte of the sum. */
  lemma SumAppendMod(s: seq<Byte>, b: Byte)
    ensures Sum(s + [b]) % 256 == (Sum(s) % 256 + b) % 256
  {
    SumAppendByte(s, b);
  }

  /** The 8-bit running checksum after a run of bytes is the low byte of the sum. */
  lemma SumConcatMod(s: seq<Byte>, t: seq<Byte>, c: Byte)
    requires c == Sum(s) % 256
    ensures Sum(s + t) % 256 == (c + Sum(t)) % 256
  {
    SumAppend(s, t);
    var x := Sum(s);
    assert x == 256 * (x / 256) + c;
    assert Sum(s + t) == 256 * (x / 256) + (c + Sum(t));
  }

  lemma ModAddMod(x: int, y: int)
    ensures (x % 256 + y) % 256 == (x + y) % 256
  {
    assert x == 256 * (x / 256) + x % 256;
    assert x + y == 256 * (x / 256) + (x % 256 + y);
  }

  /** An 8-bit running sum started at `t0`: adding a run of bytes to it gives the low
      byte of `t0` plus the sum of everything added so far. */
  lemma RunningSum(t0: nat, done: seq<Byte>, more: seq<Byte>)
    ensures ((t0 + Sum(done)) % 256 + Sum(more)) % 256 == (t0 + Sum(done + more)) % 256
  {
    SumAppend(done, more);
    ModAddMod(t0 + Sum(done), Sum(more));
  }

  lemma RunningSumByte(t0: nat, done: seq<Byte>, c: Byte)
    ensures ((t0 + Sum(done)) % 256 + c) % 256 == (t0 + Sum(done + [c])) % 256
  {
    SumAppendByte(done, c);
    ModAddMod(t0 + Sum(done), c);
  }

  /** One more byte of `q` read into the 8-bit running sum of its prefix. */
  lemma SumPrefixMod(q: seq<Byte>, n: nat)
    requires n < |q|
    ensures Sum(q[..n + 1]) % 256 == (Sum(q[..n]) % 256 + q[n]) % 256
  {
    assert q[..n + 1] == q[..n] + [q[n]];
    SumAppendMod(q[..n], q[n]);
  }

  lemma SumOfBytes(a: Byte, b: Byte, c: Byte, d: Byte)
    ensures Sum([a]) == a
    ensures Sum([a, b]) == a + b
    ensures Sum([a, b, c, d]) == a + b + c + d
  {
    assert [a][..0] == [];
    SumAppendByte([a], b);
    assert [a] + [b] == [a, b];
    SumAppendByte([a, b], c);
    assert [a, b] + [c] == [a, b, c];
    SumAppendByte([a, b, c], d);
    assert [a, b, c] + [d] == [a, b, c, d];
  }

  lemma ChecksumOfFive(a: Byte, b: Byte, c: Byte, d: Byte, e: Byte)
    ensures ((((a % 256 + b) % 256 + c) % 256 + d) % 256 + e) % 256 == Sum([a, b, c, d, e]) % 256
  {
    SumOfBytes(a, b, c, d);
    assert [a, b, c, d] + [e] == [a, b, c, d, e];
    SumAppendByte([a, b, c, d], e);
    var t1 := (a % 256 + b) % 256;
    assert t1 == (a + b) % 256;
    var t2 := (t1 + c) % 256;
    ModAddMod(a + b, c);
    assert t2 == (a + b + c) % 256;
    var t3 := (t2 + d) % 256;
    ModAddMod(a + b + c, d);
    assert t3 == (a + b + c + d) % 256;
    ModAddMod(a + b + c + d, e);
    assert (t3 + e) % 256 == (a + b + c + d + e) % 256;
  }

  /** Two more bytes added to an 8-bit running sum `t` of `x`. */
  lemma AddTwoMod(t: Byte, x: nat, a: Byte, b: Byte)
    requires t == x % 256
    ensures ((t + a) % 256 + b) % 256 == (x + a + b) % 256
  {
    ModAddMod(x, a);
    ModAddMod(x + a, b);
  }

  /** The checksum byte of a frame body: 0xFF minus the low byte of the body's sum
      (xbee.c:314-316, with the sum kept in the 8-bit `tx_checksum`). */
  function Checksum(body: seq<Byte>): (c: Byte)
    ensures (Sum(body) + c) % 256 == 0xFF
  {
    0xFF - Sum(body) % 256
  }

  /** The checksum completes the body's sum to 0xFF modulo 256. */
  lemma ChecksumCompletes(body: seq<Byte>)
    ensures Sum(body + [Checksum(body)]) % 256 == 0xFF
  {
    var s := Sum(body);
    var c := Checksum(body);
    SumAppendByte(body, c);
    assert s + c == 256 * (s / 256) + 0xFF;
  }

  /** A body that sums to 0xFF (mod 256) no longer does once any single byte is changed:
      the checksum detects every one-byte corruption. */
  lemma ChangedByteBreaksChecksum(s: seq<Byte>, i: nat, v: Byte)
    requires i < |s| && v != s[i]
    requires Sum(s) % 256 == 0xFF
    ensures Sum(s[i := v]) % 256 != 0xFF
  {
    SumUpdate(s, i, v);
    var d := v - s[i];
    assert -256 < d < 256 && d != 0;
    assert Sum(s[i := v]) == Sum(s) + d;
  }

  function Pow256(n: nat): (p: nat)
    ensures p > 0
  {
    if n == 0 then 1 else 256 * Pow256(n - 1)
  }

  lemma Pow256Values()
    ensures Pow256(2) == 0x1_0000
    ensures Pow256(8) == 0x1_0000_0000_0000_0000
  {
    assert Pow256(1) == 0x100;
    assert Pow256(2) == 0x1_0000;
    assert Pow256(3) == 0x100_0000;
    assert Pow256(4) == 0x1_0000_0000;
    assert Pow256(5) == 0x100_0000_0000;
    assert Pow256(6) == 0x1_0000_0000_0000;
    assert Pow256(7) == 0x100_0000_0000_0000;
  }

  /** The low `n` bytes of `x`, most significant first: how the C code emits a
      multi-byte field one `x >> 8k` at a time. */
  function BeBytes(x: nat, n: nat): (r: seq<Byte>)
    ensures |r| == n
  {
    if n == 0 then [] else BeBytes(x / 256, n - 1) + [x % 256]
  }

  /** The value of bytes read most significant first. */
  function BeValue(s: seq<Byte>): (v: nat)
    ensures v < Pow256(|s|)
  {
    if s == [] then 0
    else
      var hi := BeValue(s[..|s| - 1]);
      assert hi <= Pow256(|s| - 1) - 1;
      assert hi * 256 <= Pow256(|s|) - 256;
      hi * 256 + s[|s| - 1]
  }

  /** Two bytes read most significant first: `(hi << 8) | lo`. */
  lemma BeValuePair(hi: Byte, lo: Byte)
    ensures BeValue([hi, lo]) == hi * 256 + lo
  {
    assert [hi, lo][..1] == [hi];
    assert [hi][..0] == [];
  }

  /** One more byte read shifts the value up by a byte. */
  lemma BeValueAppend(s: seq<Byte>, b: Byte)
    ensures BeValue(s + [b]) == BeValue(s) * 256 + b
  {
    assert (s + [b])[..|s|] == s;
  }

  /** A byte shifted in below `x`, both then shifted up by `p`: the OR-into-place of a
      big-endian read. */
  lemma ShiftInByte(x: nat, b: Byte, p: nat)
    ensures (x * 256 + b) * p == x * (256 * p) + b * p
  {
    assert (x * 256 + b) * p == (x * 256) * p + b * p;
    assert (x * 256) * p == x * (256 * p);
  }

  /** Emitting a value that fits in `n` bytes and reading those bytes back gives the value. */
  lemma {:induction false} BeValueOfBeBytes(x: nat, n: nat)
    requires x < Pow256(n)
    ensures BeValue(BeBytes(x, n)) == x
  {
    if n > 0 {
      var s := BeBytes(x, n);
      assert s[..n - 1] == BeBytes(x / 256, n - 1);
      BeValueOfBeBytes(x / 256, n - 1);
    }
  }

  /** Reading bytes and emitting the value in as many bytes gives the bytes back. */
  lemma {:induction false} BeBytesOfBeValue(s: seq<Byte>)
    ensures BeBytes(BeValue(s), |s|) == s
    decreases |s|
  {
    if s != [] {
      var n := |s| - 1;
      var v := BeValue(s);
      assert v / 256 == BeValue(s[..n]);
      assert v % 256 == s[n];
      BeBytesOfBeValue(s[..n]);
      assert s == s[..n] + [s[n]];
    }
  }

  lemma MulAtLeast(k: nat, d: nat)
    requires k >= 1
    ensures k * d >= d
  {
    assert k * d == (k - 1) * d + d;
  }

  /** Euclidean division is determined by any quotient/remainder pair. */
  lemma DivUnique(x: int, d: nat, q: int, r: nat)
    requires d > 0 && r < d && x == q * d + r
    ensures x / d == q && x % d == r
  {
    var q', r' := x / d, x % d;
    assert x == q' * d + r';
    if q' < q {
      assert q * d == (q - q') * d + q' * d;
      MulAtLeast(q - q', d);
    } else if q' > q {
      assert q' * d == (q' - q) * d + q * d;
      MulAtLeast(q' - q, d);
    }
  }

  lemma DivDiv(x: nat, b: nat)
    requires b > 0
    ensures x / (256 * b) == (x / 256) / b
  {
    var q, r := x / 256, x % 256;
    var q2, r2 := q / b, q % b;
    assert q == q2 * b + r2;
    assert x == q * 256 + r;
    assert q * 256 == q2 * (256 * b) + r2 * 256;
    assert r2 <= b - 1;
    assert r2 * 256 <= (b - 1) * 256 == 256 * b - 256;
    DivUnique(x, 256 * b, q2, r2 * 256 + r);
  }

  /** Byte `j` of the big-endian form of `x` is `x >> 8(n-1-j)` truncated to a byte:
      the byte the C shift-and-truncate loop emits at step `j`. */
  lemma {:induction false} BeBytesAt(x: nat, n: nat, j: nat)
    requires j < n
    ensures BeBytes(x, n)[j] == (x / Pow256(n - 1 - j)) % 256
  {
    if j < n - 1 {
      BeBytesAt(x / 256, n - 1, j);
      DivDiv(x, Pow256(n - 2 - j));
    }
  }
}
