/** Bytes, 32-bit words and the byte-order helpers of the manifest codec. */
module Bytes {

  /** Rust's `u32`: a 32-bit unsigned word. */
  type u32 = bv32

  /** `x.to_le_bytes()`: least significant byte first. */
  function U32ToLe(x: u32): (b: seq<bv8>)
    ensures |b| == 4
  {
    [(x & 0xFF) as bv8, ((x >> 8) & 0xFF) as bv8, ((x >> 16) & 0xFF) as bv8, (x >> 24) as bv8]
  }

  /** `u32::from_le_bytes(b)`. */
  function LeToU32(b: seq<bv8>): u32
    requires |b| == 4
  {
    (b[0] as u32) | ((b[1] as u32) << 8) | ((b[2] as u32) << 16) | ((b[3] as u32) << 24)
  }

  /** `x.to_be_bytes()`: most significant byte first. */
  function U32ToBe(x: u32): (b: seq<bv8>)
    ensures |b| == 4
  {
    [(x >> 24) as bv8, ((x >> 16) & 0xFF) as bv8, ((x >> 8) & 0xFF) as bv8, (x & 0xFF) as bv8]
  }

  /** `u32::from_be_bytes(b)`. */
  function BeToU32(b: seq<bv8>): u32
    requires |b| == 4
  {
    (b[3] as u32) | ((b[2] as u32) << 8) | ((b[1] as u32) << 16) | ((b[0] as u32) << 24)
  }

  lemma LeToU32OfU32ToLe(x: u32)
    ensures LeToU32(U32ToLe(x)) == x
  {
  }

  lemma U32ToLeOfLeToU32(b: seq<bv8>)
    requires |b| == 4
    ensures U32ToLe(LeToU32(b)) == b
  {
  }

  /** `[0u8; n]`. */
  function Zeros(n: nat): (z: seq<bv8>)
    ensures |z| == n && AllZero(z)
  {
    seq(n, _ => 0)
  }

  /** The comparison `s == [0u8; N]` with which the source detects an unconfigured slot. */
  predicate AllZero(s: seq<bv8>)
  {
    forall i | 0 <= i < |s| :: s[i] == 0
  }

  /** The bytes of `s` in the opposite order (`<[u8]>::reverse`). */
  function Reverse(s: seq<bv8>): (r: seq<bv8>)
    ensures |r| == |s|
  {
    seq(|s|, i requires 0 <= i < |s| => s[|s| - 1 - i])
  }

  lemma ReverseReverse(s: seq<bv8>)
    ensures Reverse(Reverse(s)) == s
  {
    forall i | 0 <= i < |s|
      ensures Reverse(Reverse(s))[i] == s[i]
    {
      assert Reverse(Reverse(s))[i] == Reverse(s)[|s| - 1 - i];
    }
  }

  /** Decoding a little-endian word and encoding it big-endian reverses its four bytes. */
  lemma LeToBeBytes(w: seq<bv8>)
    requires |w| == 4
    ensures U32ToBe(LeToU32(w)) == [w[3], w[2], w[1], w[0]]
  {
  }

  /** `s.chunks_exact(4).flat_map(|c| u32::from_le_bytes(c).to_be_bytes())`: every whole
      4-byte word of `s` with its bytes reversed (which is what the word conversion does to
      one word, by `LeToBeBytes`); a trailing partial word is dropped. */
  function WordSwap(s: seq<bv8>): (r: seq<bv8>)
    ensures |r| <= |s|
    decreases |s|
  {
    if |s| < 4 then [] else [s[3], s[2], s[1], s[0]] + WordSwap(s[4..])
  }

  /** The output holds every whole word of the input and nothing of a partial one. */
  lemma {:induction false} WordSwapLength(s: seq<bv8>)
    ensures |WordSwap(s)| == |s| - |s| % 4
    decreases |s|
  {
    if |s| >= 4 {
      var n := |s| - 4;
      assert n % 4 == |s| % 4;
      WordSwapLength(s[4..]);
    }
  }

  /** `n` whole words swap to `n` whole words. */
  lemma {:induction false} WholeWordsLength(s: seq<bv8>, n: nat)
    requires |s| == 4 * n
    ensures |WordSwap(s)| == |s|
    decreases n
  {
    if n > 0 {
      WholeWordsLength(s[4..], n - 1);
    }
  }

  /** Byte `k` of output word `q` is byte `3 - k` of input word `q`. */
  lemma {:induction false} WordSwapAt(s: seq<bv8>, n: nat, q: nat, k: nat)
    requires |s| == 4 * n && q < n && k < 4
    ensures 4 * q + k < |WordSwap(s)| && WordSwap(s)[4 * q + k] == s[4 * q + 3 - k]
    decreases q
  {
    if q == 0 {
      FirstWordAt(s, n, k);
    } else {
      WordSwapAt(s[4..], n - 1, q - 1, k);
      LaterWordAt(s, n, q, k);
    }
  }

  lemma FirstWordAt(s: seq<bv8>, n: nat, k: nat)
    requires |s| == 4 * n && 0 < n && k < 4
    ensures k < |WordSwap(s)| && WordSwap(s)[k] == s[3 - k]
  {
    WholeWordsLength(s, n);
  }

  lemma LaterWordAt(s: seq<bv8>, n: nat, q: nat, k: nat)
    requires |s| == 4 * n && 0 < q < n && k < 4
    ensures 4 * q + k < |WordSwap(s)|
    ensures WordSwap(s)[4 * q + k] == WordSwap(s[4..])[4 * (q - 1) + k]
    ensures s[4..][4 * (q - 1) + 3 - k] == s[4 * q + 3 - k]
  {
    WholeWordsLength(s, n);
    WholeWordsLength(s[4..], n - 1);
  }

  /** Swapping twice restores a whole number of words. */
  lemma WordSwapInvolution(s: seq<bv8>)
    requires |s| % 4 == 0
    ensures WordSwap(WordSwap(s)) == s
  {
    var n := |s| / 4;
    WordSwapTwiceAt(s, n);
    var t := WordSwap(WordSwap(s));
    assert forall i | 0 <= i < |s| :: t[i] == s[i];
  }

  lemma WordSwapTwiceAt(s: seq<bv8>, n: nat)
    requires |s| == 4 * n
    ensures |WordSwap(WordSwap(s))| == |s|
    ensures forall i | 0 <= i < |s| :: WordSwap(WordSwap(s))[i] == s[i]
  {
    WholeWordsLength(s, n);
    WholeWordsLength(WordSwap(s), n);
    forall i | 0 <= i < |s|
      ensures WordSwap(WordSwap(s))[i] == s[i]
    {
      ByteTwiceSwapped(s, n, i);
    }
  }

  /** Byte `i` is back in place after two swaps. */
  lemma ByteTwiceSwapped(s: seq<bv8>, n: nat, i: nat)
    requires |s| == 4 * n && i < |s|
    ensures i < |WordSwap(WordSwap(s))| && WordSwap(WordSwap(s))[i] == s[i]
  {
    var w := WordSwap(s);
    WholeWordsLength(s, n);
    var q, k := WordSplit(i, n);
    WordSwapAt(w, n, q, k);
    WordSwapAt(s, n, q, 3 - k);
    assert 4 * q + 3 - k == 4 * q + (3 - k);
    assert 4 * q + 3 - (3 - k) == i;
  }

  /** Position `i` of `n` words is byte `k` of word `q`. */
  lemma WordSplit(i: nat, n: nat) returns (q: nat, k: nat)
    requires i < 4 * n
    ensures i == 4 * q + k && k < 4 && q < n
  {
    q, k := i / 4, i % 4;
  }

  /** Reversing a word's bytes turns its big-endian reading into its little-endian one. */
  lemma LeOfReverse(w: seq<bv8>)
    requires |w| == 4
    ensures LeToU32(Reverse(w)) == BeToU32(w)
  {
    assert Reverse(w) == [w[3], w[2], w[1], w[0]];
  }

  /** `a[lo..hi].reverse()`: reverses a sub-range of an array in place. */
  method ReverseRange(a: array<bv8>, lo: nat, hi: nat)
    requires lo <= hi <= a.Length
    modifies a
    ensures a[..] == old(a[..lo]) + Reverse(old(a[lo..hi])) + old(a[hi..])
  {
    var i, j := lo, hi;
    while i + 1 < j
      invariant lo <= i && j <= hi && i <= j && i - lo == hi - j
      invariant forall k | 0 <= k < lo :: a[k] == old(a[k])
      invariant forall k | hi <= k < a.Length :: a[k] == old(a[k])
      invariant forall k | i <= k < j :: a[k] == old(a[k])
      invariant forall k | lo <= k < i :: a[k] == old(a[lo + hi - 1 - k]) && a[lo + hi - 1 - k] == old(a[k])
    {
      a[i], a[j - 1] := a[j - 1], a[i];
      i, j := i + 1, j - 1;
    }
    ReversedRange(a[..], old(a[..]), lo, hi);
  }

  /** A sequence that agrees with `was` outside `[lo, hi)` and holds `was[lo..hi]`
      backwards inside it. */
  lemma ReversedRange(now: seq<bv8>, was: seq<bv8>, lo: nat, hi: nat)
    requires lo <= hi <= |was| == |now|
    requires forall k | 0 <= k < lo :: now[k] == was[k]
    requires forall k | hi <= k < |now| :: now[k] == was[k]
    requires forall k | lo <= k < hi :: now[k] == was[lo + hi - 1 - k]
    ensures now == was[..lo] + Reverse(was[lo..hi]) + was[hi..]
  {
    forall k | 0 <= k < |now|
      ensures now[k] == (was[..lo] + Reverse(was[lo..hi]) + was[hi..])[k]
    {
      if lo <= k < hi {
        assert Reverse(was[lo..hi])[k - lo] == was[lo + hi - 1 - k];
      }
    }
  }
}
