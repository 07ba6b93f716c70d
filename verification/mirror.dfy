/** The mirrored mapping of `create_buffer_mirror`, taken abstractly.

    The buffer reserves `2C` bytes of address space and binds the same
    `C`-byte store at offset 0 and again at offset `C`. Virtual offset `a`
    in `[0, 2C)` therefore names store byte `a % C`, and any run of up to
    `C` bytes starting below `C` is one contiguous span of addresses even
    when it wraps past the end of the store. Here the store is a sequence
    of `C` bytes and the two windows are the function `At`. */
module Mirror {
  import opened Bytes

  /** The store byte behind virtual offset `a`: the first window maps onto
      the store directly and the second aliases it, so a wrap is always a
      single subtraction of `c`. */
  function Phys(c: nat, a: nat): (k: nat)
    requires 0 < c && a < 2 * c
    ensures k < c
    ensures a < c ==> k == a
    ensures c <= a ==> k == a - c
  {
    a % c
  }

  /** The byte read through virtual offset `a`. */
  function At(s: seq<byte>, a: nat): byte
    requires 0 < |s| && a < 2 * |s|
  {
    s[Phys(|s|, a)]
  }

  /** The `len` bytes seen through one contiguous pointer at virtual offset
      `a`. */
  function Window(s: seq<byte>, a: nat, len: nat): (w: seq<byte>)
    requires 0 < |s| && a + len <= 2 * |s|
    ensures |w| == len
  {
    seq(len, i requires 0 <= i < len => At(s, a + i))
  }

  /** What the mirror buys: a contiguous window from an offset in the first
      copy shows the bytes that, without the mirror, take one slice of the
      store, or two slices when they wrap past its end. */
  lemma WindowSplit(s: seq<byte>, a: nat, len: nat)
    requires 0 < |s| && a < |s| && a + len <= 2 * |s|
    ensures a + len <= |s| ==> Window(s, a, len) == s[a..a + len]
    ensures |s| < a + len ==> Window(s, a, len) == s[a..] + s[..a + len - |s|]
  {
    var w := Window(s, a, len);
    assert forall i :: 0 <= i < len ==> w[i] == At(s, a + i);
    assert a + len <= |s| ==> forall i :: 0 <= i < len ==> w[i] == s[a..a + len][i];
    assert |s| < a + len ==> forall i :: 0 <= i < len ==> w[i] == (s[a..] + s[..a + len - |s|])[i];
  }

  /** How many bytes past virtual offset `a` the store byte `k` is reached
      again. */
  function Dist(c: nat, a: nat, k: nat): (r: nat)
    requires 0 < c && a < 2 * c && k < c
    ensures r < c
    ensures Phys(c, Phys(c, a) + r) == k
  {
    var p := Phys(c, a);
    if p <= k then k - p else k + c - p
  }

  /** Whether copying `n` bytes to virtual offset `a` writes store byte `k`. */
  predicate Covers(c: nat, a: nat, n: nat, k: nat)
    requires 0 < c && a + n <= 2 * c && k < c
  {
    0 < n && Dist(c, a, k) < n
  }

  /** The store after copying `d` to the pointer at virtual offset `a`: each
      byte the copy covers holds the byte of `d` that lands on it, every
      other byte keeps its value. Reading the same span back yields `d`. */
  function Write(s: seq<byte>, a: nat, d: seq<byte>): (r: seq<byte>)
    requires 0 < |s| && a + |d| <= 2 * |s| && |d| <= |s|
    ensures |r| == |s|
    ensures Window(r, a, |d|) == d
    ensures forall k :: 0 <= k < |s| && !Covers(|s|, a, |d|, k) ==> r[k] == s[k]
  {
    var c := |s|;
    var r := seq(c, k requires 0 <= k < c => if Covers(c, a, |d|, k) then d[Dist(c, a, k)] else s[k]);
    forall i | 0 <= i < |d|
      ensures Window(r, a, |d|)[i] == d[i]
    {
      assert |r| == c;
      assert Window(r, a, |d|)[i] == At(r, a + i);
      assert Dist(c, a, Phys(c, a + i)) == i;
    }
    r
  }

  /** `memcpy` to the pointer at virtual offset `a`: one byte after the
      other, each through whichever copy of the store its address falls in. */
  function Copy(s: seq<byte>, a: nat, d: seq<byte>): (r: seq<byte>)
    requires 0 < |s| && a + |d| <= 2 * |s|
    ensures |r| == |s|
    ensures forall k :: 0 <= k < |s| && !Covers(|s|, a, |d|, k) ==> r[k] == s[k]
    decreases |d|
  {
    if |d| == 0 then s
    else
      var c := |s|;
      var r := Copy(s[Phys(c, a) := d[0]], a + 1, d[1..]);
      assert forall k :: 0 <= k < c && !Covers(c, a, |d|, k) ==>
        k != Phys(c, a) && !Covers(c, a + 1, |d| - 1, k);
      r
  }

  /** Copying byte by byte through the mirror places the bytes as `Write`
      says, as long as the copy is no longer than the store. */
  lemma {:induction false} CopyIsWrite(s: seq<byte>, a: nat, d: seq<byte>)
    requires 0 < |s| && a + |d| <= 2 * |s| && |d| <= |s|
    ensures Copy(s, a, d) == Write(s, a, d)
    decreases |d|
  {
    if |d| > 0 {
      var c := |s|;
      var s1 := s[Phys(c, a) := d[0]];
      CopyIsWrite(s1, a + 1, d[1..]);
      CoversFirstThenRest(c, a, |d|);
      var w, w1 := Write(s, a, d), Write(s1, a + 1, d[1..]);
      forall k | 0 <= k < c
        ensures w1[k] == w[k]
      {
        if k != Phys(c, a) && Covers(c, a, |d|, k) {
          assert Dist(c, a + 1, k) == Dist(c, a, k) - 1;
        }
      }
    }
  }

  /** A copy of `n` bytes at `a` covers the byte at `a` and then what a copy
      of `n - 1` bytes at `a + 1` covers; since `n <= c` the first byte is not
      reached again. */
  lemma CoversFirstThenRest(c: nat, a: nat, n: nat)
    requires 0 < n <= c && a + n <= 2 * c
    ensures !Covers(c, a + 1, n - 1, Phys(c, a))
    ensures forall k :: 0 <= k < c ==>
      (Covers(c, a, n, k) <==> k == Phys(c, a) || Covers(c, a + 1, n - 1, k))
  {
  }

  /** Reading `m + n` bytes at `a` is reading `m` bytes and then `n` more. */
  lemma WindowConcat(s: seq<byte>, a: nat, m: nat, n: nat)
    requires 0 < |s| && a + m + n <= 2 * |s|
    ensures Window(s, a, m + n) == Window(s, a, m) + Window(s, a + m, n)
  {
    var w := Window(s, a, m + n);
    forall i | m <= i < m + n
      ensures w[i] == Window(s, a + m, n)[i - m]
    {
      assert a + m + (i - m) == a + i;
    }
  }

  /** The second window shows the same bytes as the first. */
  lemma WindowAlias(s: seq<byte>, a: nat, n: nat)
    requires 0 < |s| <= a && a + n <= 2 * |s|
    ensures Window(s, a, n) == Window(s, a - |s|, n)
  {
    forall i | 0 <= i < n
      ensures Window(s, a, n)[i] == Window(s, a - |s|, n)[i]
    {
      assert Window(s, a, n)[i] == At(s, a + i);
      assert Window(s, a - |s|, n)[i] == At(s, a - |s| + i);
    }
  }

  /** A copy that starts where a window of `m` bytes ends, and is no longer
      than the rest of the store, leaves that window as it was. */
  lemma WriteAfterWindow(s: seq<byte>, b: nat, m: nat, d: seq<byte>)
    requires 0 < |s| && b < |s| && m + |d| <= |s|
    ensures Window(Write(s, Phys(|s|, b + m), d), b, m) == Window(s, b, m)
  {
    var c := |s|;
    var a := Phys(c, b + m);
    var r := Write(s, a, d);
    forall i | 0 <= i < m
      ensures Window(r, b, m)[i] == Window(s, b, m)[i]
    {
      var k := Phys(c, b + i);
      assert |r| == c;
      assert Window(r, b, m)[i] == At(r, b + i) == r[k];
      assert Window(s, b, m)[i] == At(s, b + i) == s[k];
      assert Dist(c, a, k) == c - m + i;
      assert !Covers(c, a, |d|, k);
    }
  }

  /** A window starting in either copy of the store reads the same bytes as
      the one starting at the matching offset of the first copy. */
  lemma MirrorWindow(s: seq<byte>, a: nat, n: nat)
    requires 0 < |s| && a < 2 * |s| && a + n <= 2 * |s|
    ensures Phys(|s|, a) + n <= 2 * |s|
    ensures Window(s, a, n) == Window(s, Phys(|s|, a), n)
  {
    if a >= |s| {
      WindowAlias(s, a, n);
    }
  }

  /** What a copy to `Phys(a)` wrote can be read back through either copy
      of the store, starting at `a`. */
  lemma WriteThenReadAt(s: seq<byte>, a: nat, d: seq<byte>)
    requires 0 < |s| && a + |d| <= 2 * |s| && |d| <= |s| && a < 2 * |s|
    requires Phys(|s|, a) + |d| <= 2 * |s|
    ensures Window(Write(s, Phys(|s|, a), d), a, |d|) == d
  {
    var r := Write(s, Phys(|s|, a), d);
    MirrorWindow(r, a, |d|);
  }
}
