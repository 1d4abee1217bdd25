/**
 The reference hash that the vectorised kernels must reproduce: Java's
 `Arrays.hashCode(byte[])`, which starts from 1 and folds every byte, in
 order, with `h = 31 * h + b` on 32-bit `int`, the byte read as signed.

 `ScalarFold` is that recurrence with Java's per-step wrap-around;
 `HashFrom` is the same recurrence over unbounded integers, and the lemmas
 relate the two and give the closed form of the unbounded value: every
 byte is weighted by 31 raised to the number of bytes that follow it.
 */
module RollingHash {
  import opened Int32

  /** 31^k over unbounded integers. */
  function Pow31(k: nat): nat
  {
    if k == 0 then 1 else 31 * Pow31(k - 1)
  }

  /** Descending powers `31^(e+m-1), ..., 31^(e+1), 31^e`: the weight of
      each of `m` consecutive bytes that are followed by `e` more. */
  function PowRow(e: nat, m: nat): (r: seq<int>)
    ensures |r| == m
  {
    seq(m, l requires 0 <= l < m => Pow31(e + m - 1 - l))
  }

  /** The dot product of two equally long integer sequences. */
  function Dot(a: seq<int>, b: seq<int>): int
    requires |a| == |b|
  {
    if |a| == 0 then 0
    else Dot(a[..|a| - 1], b[..|b| - 1]) + a[|a| - 1] * b[|b| - 1]
  }

  /** The recurrence `h = 31 * h + b`, started at `h` and applied to every
      element of `s` in order, without wrap-around. */
  function HashFrom(h: int, s: seq<int>): int
  {
    if |s| == 0 then h else 31 * HashFrom(h, s[..|s| - 1]) + s[|s| - 1]
  }

  /** The loop `for (b : s) sh = 31 * sh + b;` on Java `int`, started at
      `sh`: both the multiplication and the addition wrap. */
  function ScalarFold(sh: JInt, s: seq<JByte>): JInt
  {
    if |s| == 0 then sh
    else Add(Mul(31, ScalarFold(sh, s[..|s| - 1])), Widen(s[|s| - 1]))
  }

  /** `Arrays.hashCode(byte[])`: the fold started at 1. */
  function ScalarHash(s: seq<JByte>): JInt
  {
    ScalarFold(1, s)
  }

  /** Wrapping after every step is the same as wrapping once at the end. */
  lemma {:induction false} ScalarFoldIsWrapped(sh: JInt, s: seq<JByte>)
    ensures ScalarFold(sh, s) == Wrap(HashFrom(sh, s))
    decreases |s|
  {
    if |s| == 0 {
      WrapOfInRange(sh);
    } else {
      var p := s[..|s| - 1];
      ScalarFoldIsWrapped(sh, p);
      StepIsWrapped(HashFrom(sh, p), s[|s| - 1]);
    }
  }

  lemma {:induction false} PowAdd(a: nat, b: nat)
    ensures Pow31(a + b) == Pow31(a) * Pow31(b)
    decreases b
  {
    if b > 0 {
      PowAdd(a, b - 1);
      assert Pow31(a + b) == 31 * Pow31(a + b - 1);
    }
  }

  /** Folding a concatenation folds the first part, then continues with
      the second from where the first left off. */
  lemma {:induction false} HashFromAppend(h: int, s: seq<int>, t: seq<int>)
    ensures HashFrom(h, s + t) == HashFrom(HashFrom(h, s), t)
    decreases |t|
  {
    if |t| == 0 {
      assert s + t == s;
    } else {
      var t' := t[..|t| - 1];
      assert (s + t)[..|s + t| - 1] == s + t';
      HashFromAppend(h, s, t');
    }
  }

  /** The starting value only contributes `31^|s| * h`. */
  lemma {:induction false} HashFromLinear(h: int, s: seq<int>)
    ensures HashFrom(h, s) == Pow31(|s|) * h + HashFrom(0, s)
    decreases |s|
  {
    if |s| > 0 {
      var p := s[..|s| - 1];
      HashFromLinear(h, p);
      calc {
        HashFrom(h, s);
        31 * (Pow31(|p|) * h + HashFrom(0, p)) + s[|s| - 1];
        (31 * Pow31(|p|)) * h + (31 * HashFrom(0, p) + s[|s| - 1]);
        Pow31(|s|) * h + HashFrom(0, s);
      }
    }
  }

  /** The fold from 0 of a concatenation: the first part is carried past
      every element of the second. */
  lemma HashFromConcat(s: seq<int>, t: seq<int>)
    ensures HashFrom(0, s + t) == Pow31(|t|) * HashFrom(0, s) + HashFrom(0, t)
  {
    HashFromAppend(0, s, t);
    HashFromLinear(HashFrom(0, s), t);
  }

  /** Starting states that agree modulo 2^32 give folds that agree modulo
      2^32. */
  lemma HashFromCong(h: int, h': int, s: seq<int>)
    requires Cong(h, h')
    ensures Cong(HashFrom(h, s), HashFrom(h', s))
  {
    HashFromLinear(h, s);
    HashFromLinear(h', s);
    CongMul(Pow31(|s|), Pow31(|s|), h, h');
    CongAdd(Pow31(|s|) * h, Pow31(|s|) * h', HashFrom(0, s), HashFrom(0, s));
  }

  /** The unbounded fold from 0, scaled by `31^e`, is the dot product of
      the input with its descending weights `PowRow(e, |s|)`. */
  lemma {:induction false} DotPowRow(s: seq<int>, e: nat)
    ensures Dot(s, PowRow(e, |s|)) == Pow31(e) * HashFrom(0, s)
    decreases |s|
  {
    var n := |s|;
    if n > 0 {
      var p := s[..n - 1];
      var row := PowRow(e, n);
      assert row[..n - 1] == PowRow(e + 1, n - 1);
      assert row[n - 1] == Pow31(e);
      DotPowRow(p, e + 1);
      calc {
        Dot(s, row);
        Dot(p, PowRow(e + 1, n - 1)) + s[n - 1] * Pow31(e);
        (31 * Pow31(e)) * HashFrom(0, p) + s[n - 1] * Pow31(e);
        Pow31(e) * (31 * HashFrom(0, p) + s[n - 1]);
      }
    }
  }

  /** Closed form of the reference hash: 31^n plus every byte weighted by
      31 raised to the number of bytes after it, all modulo 2^32. */
  lemma ScalarHashClosedForm(s: seq<JByte>)
    ensures ScalarHash(s) == Wrap(Pow31(|s|) + Dot(s, PowRow(0, |s|)))
  {
    ScalarFoldIsWrapped(1, s);
    HashFromLinear(1, s);
    DotPowRow(s, 0);
    assert Pow31(0) == 1;
  }

  /** Continuing the Java fold over a concatenation. */
  lemma {:induction false} ScalarFoldAppend(sh: JInt, s: seq<JByte>, t: seq<JByte>)
    ensures ScalarFold(sh, s + t) == ScalarFold(ScalarFold(sh, s), t)
    decreases |t|
  {
    if |t| == 0 {
      assert s + t == s;
    } else {
      var t' := t[..|t| - 1];
      assert (s + t)[..|s + t| - 1] == s + t';
      ScalarFoldAppend(sh, s, t');
    }
  }

  /** The reference hash of `s`, computed as a prefix's hash continued
      over the rest: what every hasher's tail loop relies on. */
  lemma ScalarHashSplit(s: seq<JByte>, i: nat)
    requires i <= |s|
    ensures ScalarFold(ScalarHash(s[..i]), s[i..]) == ScalarHash(s)
  {
    ScalarFoldAppend(1, s[..i], s[i..]);
    assert s[..i] + s[i..] == s;
  }

  /** Folding `n` zero bytes from `sh` only multiplies by 31^n. */
  lemma {:induction false} ScalarFoldZeros(sh: JInt, n: nat)
    ensures ScalarFold(sh, seq(n, _ => 0)) == Wrap(Pow31(n) * sh)
  {
    var z: seq<JByte> := seq(n, _ => 0);
    ScalarFoldIsWrapped(sh, z);
    HashFromLinear(sh, z);
    HashFromZeros(n);
  }

  lemma {:induction false} HashFromZeros(n: nat)
    ensures HashFrom(0, seq(n, _ => 0)) == 0
  {
    if n > 0 {
      assert seq(n, _ => 0)[..n - 1] == seq(n - 1, _ => 0);
      HashFromZeros(n - 1);
    }
  }

  /** 31^32 as a numeral, reached through 31^4, 31^8 and 31^16. */
  lemma Pow31Value()
    ensures Pow31(32) == 529144398052420314716929933900838757437386767361
  {
    assert Pow31(4) == 923521;
    PowAdd(4, 4);
    PowAdd(8, 8);
    PowAdd(16, 16);
  }

  /** Thirty-two zero bytes hash to 31^32 modulo 2^32: the initial 1 is
      carried past every byte, and it does not survive as 1. */
  lemma ZeroBlockHash()
    ensures ScalarHash(seq(32, _ => 0)) == 2111290369
  {
    ScalarFoldZeros(1, 32);
    Pow31Value();
    assert Pow31(32) * 1 == 2111290369 + TWO_32 * 123201030784384420774162265914687597527;
    WrapShift(2111290369, 123201030784384420774162265914687597527);
    WrapOfInRange(2111290369);
  }

  /** Reference values: the empty input hashes to 1, "abc" to 126145, and
      a single byte 0xFF, which Java reads as -1, to 30. */
  lemma ReferenceValues()
    ensures ScalarHash([]) == 1
    ensures ScalarHash([97, 98, 99]) == 126145
    ensures ScalarHash([-1]) == 30
  {
    var abc: seq<JByte> := [97, 98, 99];
    assert abc[..2] == [97, 98] && abc[..2][..1] == [97] && abc[..2][..1][..0] == [];
    assert ScalarFold(1, [97]) == 128;
    assert ScalarFold(1, [97, 98]) == 4066;
    var ff: seq<JByte> := [-1];
    assert ff[..0] == [];
  }
}
