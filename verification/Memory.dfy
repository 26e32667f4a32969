/** Sizes fixed by the kernel, and the small arithmetic the block layer needs. */
module Params {
  const PAGE_SIZE: nat := 4096
  const UINT_MAX: nat := 0xFFFF_FFFF
  const MAX_RW_COUNT: nat := 0x7FFF_F000 // INT_MAX rounded down to a page

  const EINTR := -4
  const ENOMEM := -12
  const EFAULT := -14
  const EINVAL := -22

  function Min(a: int, b: int): int {
    if a <= b then a else b
  }

  /** Truncation to a 32-bit unsigned word. */
  function Wrap32(x: nat): nat {
    x % 0x1_0000_0000
  }

  /** DIV_ROUND_UP(x, PAGE_SIZE): the number of pages that x bytes from a page start touch. */
  function PagesFor(x: nat): nat {
    (x + PAGE_SIZE - 1) / PAGE_SIZE
  }
}

/** Byte-addressed memory as a sequence, and scattered reads and writes through a list of addresses. */
module Memory {
  type Byte = bv8

  /** The addresses start, start + 1, ... of a contiguous buffer. */
  function Range(start: nat, n: nat): (r: seq<nat>)
    ensures |r| == n && forall k :: 0 <= k < n ==> r[k] == start + k
  {
    seq(n, k requires k >= 0 => start + k)
  }

  lemma RangeSplit(start: nat, m: nat, n: nat)
    ensures Range(start, m + n) == Range(start, m) + Range(start + m, n)
  {
  }

  ghost predicate Mapped<T>(m: seq<T>, addrs: seq<nat>) {
    forall k :: 0 <= k < |addrs| ==> addrs[k] < |m|
  }

  ghost predicate Distinct(addrs: seq<nat>) {
    forall i, j :: 0 <= i < j < |addrs| ==> addrs[i] != addrs[j]
  }

  /** The bytes found at the listed addresses, in list order. */
  ghost function Load<T>(m: seq<T>, addrs: seq<nat>): (r: seq<T>)
    requires Mapped(m, addrs)
    ensures |r| == |addrs| && forall k :: 0 <= k < |r| ==> r[k] == m[addrs[k]]
  {
    seq(|addrs|, k requires 0 <= k < |addrs| => m[addrs[k]])
  }

  /** Memory after writing data[0], data[1], ... to the listed addresses, in list order. */
  ghost function Store<T>(m: seq<T>, addrs: seq<nat>, data: seq<T>): (r: seq<T>)
    requires |addrs| == |data| && Mapped(m, addrs)
    ensures |r| == |m|
    ensures forall x :: 0 <= x < |m| && x !in addrs ==> r[x] == m[x]
    decreases |addrs|
  {
    if addrs == [] then m else
      Store(m[addrs[0] := data[0]], addrs[1..], data[1..])
  }

  lemma {:induction false} StoreConcat<T>(m: seq<T>, a: seq<nat>, b: seq<nat>, d: seq<T>, e: seq<T>)
    requires |a| == |d| && |b| == |e| && Mapped(m, a) && Mapped(m, b)
    ensures Mapped(m, a + b) && Store(m, a + b, d + e) == Store(Store(m, a, d), b, e)
    decreases |a|
  {
    if a == [] {
      assert a + b == b && d + e == e;
    } else {
      assert (a + b)[1..] == a[1..] + b && (d + e)[1..] == d[1..] + e;
      StoreConcat(m[a[0] := d[0]], a[1..], b, d[1..], e);
    }
  }

  /** Reading back the addresses just written returns the data, when no address repeats. */
  lemma {:induction false} LoadAfterStore<T>(m: seq<T>, addrs: seq<nat>, data: seq<T>)
    requires |addrs| == |data| && Mapped(m, addrs) && Distinct(addrs)
    ensures Load(Store(m, addrs, data), addrs) == data
    decreases |addrs|
  {
    if addrs != [] {
      var m' := m[addrs[0] := data[0]];
      LoadAfterStore(m', addrs[1..], data[1..]);
      var s := Store(m, addrs, data);
      forall k | 0 <= k < |addrs| ensures s[addrs[k]] == data[k] {
        if k > 0 {
          assert Load(s, addrs[1..])[k - 1] == data[1..][k - 1];
        }
      }
    }
  }

  /** A write to a contiguous buffer replaces exactly that slice. */
  lemma {:induction false} StoreRange<T>(m: seq<T>, start: nat, data: seq<T>)
    requires start + |data| <= |m|
    ensures Store(m, Range(start, |data|), data) == m[..start] + data + m[start + |data|..]
  {
    var r := Range(start, |data|);
    var s := Store(m, r, data);
    LoadAfterStore(m, r, data);
    forall x | 0 <= x < |m|
      ensures s[x] == (m[..start] + data + m[start + |data|..])[x]
    {
      if start <= x < start + |data| {
        assert Load(s, r)[x - start] == data[x - start];
        assert r[x - start] == x;
      }
    }
  }

  /** memcpy between two arrays. */
  method Blit<T>(src: array<T>, from: nat, dst: array<T>, to: nat, len: nat)
    requires src != dst && from + len <= src.Length && to + len <= dst.Length
    modifies dst
    ensures dst[..] == old(dst[..])[..to] + src[from..from + len] + old(dst[..])[to + len..]
  {
    forall k | 0 <= k < len {
      dst[to + k] := src[from + k];
    }
  }

  lemma Cancel(a: multiset<nat>, b: multiset<nat>, t: multiset<nat>)
    requires a + t == b + t
    ensures a == b
  {
    forall x ensures a[x] == b[x] {
      assert (a + t)[x] == (b + t)[x];
    }
  }
}
