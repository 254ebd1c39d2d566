/**
  Length-prefixed byte strings, src/blob.c: a varint with the size, then the bytes.
*/
module Blob {
  import opened Varint

  /** The reference encoding. */
  function Encode(b: seq<Byte>): (s: seq<Byte>)
    requires |b| < U64
    ensures |s| >= 1
  {
    Varint.Encode(|b|) + b
  }

  /** A complete blob can be read at s[at..]. */
  predicate Readable(s: seq<Byte>, at: nat) {
    && Varint.Readable(s, at, 0)
    && at + LengthFrom(s, at, 0) + ValueFrom(s, at, 0) <= |s|
  }

  /** The blob at s[at..] and the number of bytes that it takes with its prefix. */
  function Decode(s: seq<Byte>, at: nat): (r: (seq<Byte>, nat))
    requires Readable(s, at)
    ensures at + r.1 <= |s|
  {
    var from := at + LengthFrom(s, at, 0);
    (s[from..from + ValueFrom(s, at, 0)], LengthFrom(s, at, 0) + ValueFrom(s, at, 0))
  }

  /** Round trip and self-delimitation, whatever bytes surround the blob. */
  lemma RoundTrip(s: seq<Byte>, at: nat, b: seq<Byte>)
    requires |b| < U64 && at <= |s| && Encode(b) <= s[at..]
    ensures Readable(s, at) && Decode(s, at) == (b, |Encode(b)|)
  {
    var prefix := Varint.Encode(|b|);
    assert s[at..][..|prefix|] == Encode(b)[..|prefix|] == prefix;
    Varint.RoundTrip(s, at, |b|);
    var n := |prefix|;
    assert Encode(b)[n..] == b;
    assert s[at..][..n + |b|] == Encode(b);
    assert s[at + n..at + n + |b|] == s[at..][..n + |b|][n..];
  }

  /** `blob_put_len`. */
  method PutLen(b: seq<Byte>) returns (n: nat)
    requires |b| < U64
    ensures n == |Encode(b)|
  {
    n := Varint.PutLen(|b|);
    n := n + |b|;
  }

  /** `blob_put`. The size of an object in memory is below 2^56, where `varint_put`
      as written is exact. */
  method Put(dst: array<Byte>, at: nat, b: seq<Byte>) returns (n: nat)
    requires |b| < TOP_BYTE && at + |Encode(b)| <= dst.Length
    modifies dst
    ensures n == |Encode(b)| && dst[..] == Splice(old(dst[..]), at, Encode(b))
    ensures Varint.Encode(|b|) + b == dst[at..at + n]
  {
    n := Varint.Put(dst, at, |b|);
    ghost var prefixed := dst[..];
    forall i | 0 <= i < |b| {
      dst[at + n + i] := b[i];
    }
    PutParts(old(dst[..]), prefixed, dst[..], at, b);
    n := n + |b|;
  }

  lemma PutParts(s: seq<Byte>, prefixed: seq<Byte>, r: seq<Byte>, at: nat, b: seq<Byte>)
    requires |b| < U64 && at + |Encode(b)| <= |s| == |r|
    requires prefixed == Splice(s, at, Varint.Encode(|b|))
    requires var n := |Varint.Encode(|b|)|;
             && (forall k :: 0 <= k < |s| && !(at + n <= k < at + n + |b|) ==> r[k] == prefixed[k])
             && (forall k :: 0 <= k < |b| ==> r[at + n + k] == b[k])
    ensures r == Splice(s, at, Encode(b))
  {
    var n := |Varint.Encode(|b|)|;
    var want := Splice(s, at, Encode(b));
    forall k | 0 <= k < |s| ensures r[k] == want[k] {
      if at + n <= k < at + n + |b| {
        assert r[at + n + (k - at - n)] == b[k - at - n];
      }
    }
  }

  /** `blob_get`: where the bytes start, how many there are, and how many were read. */
  method Get(src: array<Byte>, at: nat) returns (total: nat, data: nat, size: nat)
    requires Readable(src[..], at)
    ensures data + size <= src.Length
    ensures (src[data..data + size], total) == Decode(src[..], at)
    ensures data >= at && Reads(src[..], at, size, data - at) && total == data - at + size
  {
    var n;
    n, size := Varint.Get(src, at);
    data := at + n;
    total := n + size;
  }

  /** `blob_get_len`. */
  method GetLen(src: array<Byte>, at: nat) returns (n: nat)
    requires Readable(src[..], at)
    ensures n == Decode(src[..], at).1
  {
    var size;
    n, size := Varint.Get(src, at);
    n := n + size;
  }

  // ------------------------------------------------------------- comparison

  /** The sign of `memcmp` on the first n bytes. */
  function MemCmp(a: seq<Byte>, b: seq<Byte>, n: nat): (r: int)
    requires n <= |a| && n <= |b|
    decreases n
  {
    if n == 0 then 0
    else
      var r := MemCmp(a, b, n - 1);
      if r != 0 then r
      else if a[n - 1] < b[n - 1] then -1
      else if a[n - 1] > b[n - 1] then 1
      else 0
  }

  /** `blob_cmp`. */
  function Cmp(a: seq<Byte>, b: seq<Byte>): int {
    var ret := MemCmp(a, b, if |a| < |b| then |a| else |b|);
    if ret == 0 then if |a| < |b| then -1 else if |a| > |b| then 1 else 0
    else ret
  }

  /** a comes before b: it is a proper prefix, or smaller at the first difference. */
  ghost predicate Before(a: seq<Byte>, b: seq<Byte>) {
    || a < b
    || exists k: nat :: FirstDifference(a, b, k) && a[k] < b[k]
  }

  ghost predicate FirstDifference(a: seq<Byte>, b: seq<Byte>, k: nat) {
    k < |a| && k < |b| && a[..k] == b[..k] && a[k] != b[k]
  }

  lemma {:induction false} MemCmpMeaning(a: seq<Byte>, b: seq<Byte>, n: nat)
    requires n <= |a| && n <= |b|
    ensures MemCmp(a, b, n) == 0 <==> a[..n] == b[..n]
    ensures MemCmp(a, b, n) < 0 <==> exists k: nat :: k < n && FirstDifference(a, b, k) && a[k] < b[k]
  {
    if n > 0 {
      MemCmpMeaning(a, b, n - 1);
      assert a[..n] == a[..n - 1] + [a[n - 1]] && b[..n] == b[..n - 1] + [b[n - 1]];
      if a[..n - 1] == b[..n - 1] {
        forall k: nat | k < n - 1 ensures !FirstDifference(a, b, k) {
          assert a[..n - 1][k] == b[..n - 1][k];
        }
        if a[n - 1] < b[n - 1] {
          assert FirstDifference(a, b, n - 1);
        }
      } else {
        forall k: nat | k < n && FirstDifference(a, b, k) ensures k < n - 1 {
        }
      }
    }
  }

  /** `blob_cmp` decides equality and lexicographic order. */
  lemma CmpMeaning(a: seq<Byte>, b: seq<Byte>)
    ensures Cmp(a, b) == 0 <==> a == b
    ensures Cmp(a, b) < 0 <==> Before(a, b)
  {
    var n := if |a| < |b| then |a| else |b|;
    MemCmpMeaning(a, b, n);
    if a[..n] == b[..n] {
      forall k: nat ensures !FirstDifference(a, b, k) {
        if k < n {
          assert a[..n][k] == b[..n][k];
        }
      }
      assert a == a[..n] || b == b[..n];
    } else {
      assert !(a <= b);
    }
  }
}
