/**
  Byte memory: `memcpy` as a function on byte sequences, and the little-endian value of a
  group of bytes.
 */
module Memory {
  import opened Bits

  datatype Option<+T> = None | Some(value: T)

  /** `memcpy(&m[at], s, |s|)`, one byte after the other. */
  function Splice(m: seq<byte>, at: nat, s: seq<byte>): (r: seq<byte>)
    requires at + |s| <= |m|
    ensures |r| == |m|
    decreases |s|
  {
    if s == [] then m else Splice(m[at := s[0]], at + 1, s[1..])
  }

  lemma {:induction false} SpliceAt(m: seq<byte>, at: nat, s: seq<byte>, k: nat)
    requires at + |s| <= |m| && k < |m|
    ensures Splice(m, at, s)[k] == if at <= k < at + |s| then s[k - at] else m[k]
    decreases |s|
  {
    if s != [] {
      SpliceAt(m[at := s[0]], at + 1, s[1..], k);
    }
  }

  /** Memory after a copy: what lay before, the copy, what lay behind. */
  lemma SpliceParts(m: seq<byte>, at: nat, s: seq<byte>)
    requires at + |s| <= |m|
    ensures Splice(m, at, s) == m[..at] + s + m[at + |s|..]
  {
    forall k | 0 <= k < |m| ensures Splice(m, at, s)[k] == (m[..at] + s + m[at + |s|..])[k] {
      SpliceAt(m, at, s, k);
    }
  }

  /** `memcpy` as it runs. */
  method CopyIn(to: array<byte>, at: nat, data: seq<byte>)
    requires at + |data| <= to.Length
    modifies to
    ensures to[..] == Splice(old(to[..]), at, data)
  {
    for i := 0 to |data|
      invariant Splice(to[..], at + i, data[i..]) == Splice(old(to[..]), at, data)
    {
      ghost var before := to[..];
      to[at + i] := data[i];
      assert to[..] == before[at + i := data[i]] && data[i..][1..] == data[i + 1..];
    }
  }

  /** The `n` bytes at `at`. */
  function Slice(m: seq<byte>, at: nat, n: nat): (s: seq<byte>)
    requires at + n <= |m|
    ensures |s| == n
  {
    m[at..at + n]
  }

  function Zeros(n: nat): (s: seq<byte>)
    ensures |s| == n
  {
    seq(n, _ => 0)
  }

  predicate Disjoint(a: nat, m: nat, b: nat, n: nat) {
    a + m <= b || b + n <= a
  }

  lemma SliceOfPrefix(m: seq<byte>, n: nat, p: nat, len: nat)
    requires p + len <= n <= |m|
    ensures Slice(m[..n], p, len) == Slice(m, p, len)
  {
  }

  /** Copying leaves every disjoint slice alone. */
  lemma SliceOutsideSplice(m: seq<byte>, at: nat, s: seq<byte>, p: nat, n: nat)
    requires at + |s| <= |m| && p + n <= |m|
    requires Disjoint(at, |s|, p, n)
    ensures Slice(Splice(m, at, s), p, n) == Slice(m, p, n)
  {
    SpliceParts(m, at, s);
  }

  /** What was copied is there. */
  lemma SliceOfSplice(m: seq<byte>, at: nat, s: seq<byte>)
    requires at + |s| <= |m|
    ensures Slice(Splice(m, at, s), at, |s|) == s
  {
    SpliceParts(m, at, s);
  }

  /** A copy inside a slice changes just that part of the slice. */
  lemma SliceAroundSplice(m: seq<byte>, at: nat, s: seq<byte>, p: nat, n: nat)
    requires p <= at && at + |s| <= p + n <= |m|
    ensures Slice(Splice(m, at, s), p, n) == Splice(Slice(m, p, n), at - p, s)
  {
    SpliceParts(m, at, s);
    SpliceParts(Slice(m, p, n), at - p, s);
    assert Slice(m, p, n)[..at - p] == m[p..at];
    assert Slice(m, p, n)[at - p + |s|..] == m[at + |s|..p + n];
    assert Slice(Splice(m, at, s), p, n) == m[p..at] + s + m[at + |s|..p + n];
  }

  /** Two adjacent copies are one copy. */
  lemma SpliceTwice(m: seq<byte>, at: nat, s: seq<byte>, t: seq<byte>)
    requires at + |s| + |t| <= |m|
    ensures Splice(Splice(m, at, s), at + |s|, t) == Splice(m, at, s + t)
  {
    SpliceParts(m, at, s);
    SpliceParts(Splice(m, at, s), at + |s|, t);
    SpliceParts(m, at, s + t);
  }

  /** Copying back what is there changes nothing. */
  lemma SpliceSame(m: seq<byte>, at: nat, n: nat)
    requires at + n <= |m|
    ensures Splice(m, at, Slice(m, at, n)) == m
  {
    SpliceParts(m, at, Slice(m, at, n));
  }

  // ------------------------------------------------------------- little-endian values

  function Pow256(n: nat): (r: nat)
    ensures r >= 1
  {
    if n == 0 then 1 else 256 * Pow256(n - 1)
  }

  function Value(s: seq<byte>): nat {
    if s == [] then 0 else s[0] + 256 * Value(s[1..])
  }

  function Encoded(v: nat, n: nat): (s: seq<byte>)
    ensures |s| == n
  {
    if n == 0 then [] else [v % 256] + Encoded(v / 256, n - 1)
  }

  lemma {:induction false} ValueBound(s: seq<byte>)
    ensures Value(s) < Pow256(|s|)
  {
    if s != [] {
      ValueBound(s[1..]);
    }
  }

  lemma {:induction false} EncodedValue(s: seq<byte>)
    ensures Encoded(Value(s), |s|) == s
  {
    if s != [] {
      EncodedValue(s[1..]);
      assert Value(s) % 256 == s[0] && Value(s) / 256 == Value(s[1..]);
    }
  }

  lemma {:induction false} ValueEncoded(v: nat, n: nat)
    requires v < Pow256(n)
    ensures Value(Encoded(v, n)) == v
  {
    if n > 0 {
      assert v / 256 < Pow256(n - 1);
      ValueEncoded(v / 256, n - 1);
      assert Encoded(v, n)[1..] == Encoded(v / 256, n - 1);
    }
  }
}
