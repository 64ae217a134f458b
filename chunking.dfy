/** The arithmetic of the chunked writers: a payload of `n` elements is sent
    as pieces of `cap` elements, the last piece holding what is left. */
module Chunking {

  function Min(a: nat, b: nat): nat { if a < b then a else b }

  /** Ceiling of n / d, as integer arithmetic. */
  function CeilDiv(n: nat, d: nat): nat
    requires d > 0
  {
    (n + d - 1) / d
  }

  /** `n` copies of `x`. */
  function Repeat<T>(x: T, n: nat): (r: seq<T>)
    ensures |r| == n && forall i :: 0 <= i < n ==> r[i] == x
  {
    seq(n, _ => x)
  }

  /** The concatenation of a sequence of pieces. */
  function Flatten<T>(ss: seq<seq<T>>): seq<T>
  {
    if ss == [] then [] else ss[0] + Flatten(ss[1..])
  }

  /** The pieces a chunked writer sends: `min(remaining, cap)` elements at a
      time, in order. */
  function Chunks<T>(s: seq<T>, cap: nat): seq<seq<T>>
    requires cap > 0
    decreases |s|
  {
    if |s| == 0 then []
    else
      var l := Min(|s|, cap);
      [s[..l]] + Chunks(s[l..], cap)
  }

  lemma {:induction false} FlattenAppend<T>(a: seq<seq<T>>, b: seq<seq<T>>)
    ensures Flatten(a + b) == Flatten(a) + Flatten(b)
  {
    if a == [] {
      assert a + b == b;
    } else {
      assert (a + b)[1..] == a[1..] + b;
      FlattenAppend(a[1..], b);
    }
  }

  /** The pieces, put back together, are the whole payload, in order. */
  lemma {:induction false} ChunksFlatten<T>(s: seq<T>, cap: nat)
    requires cap > 0
    ensures Flatten(Chunks(s, cap)) == s
    decreases |s|
  {
    if |s| > 0 {
      var l := Min(|s|, cap);
      ChunksFlatten(s[l..], cap);
      assert s == s[..l] + s[l..];
    }
  }

  /** A positive multiple of `d` is at least `d`. */
  lemma {:induction false} MulAtLeast(d: nat, k: nat)
    requires k >= 1
    ensures d * k >= d
  {
    if k > 1 {
      MulAtLeast(d, k - 1);
      assert d * k == d * (k - 1) + d;
    }
  }

  /** Division is unique: the quotient of `d * q + r` with `0 <= r < d` is `q`. */
  lemma DivUnique(n: int, d: int, q: int, r: int)
    requires d > 0 && 0 <= r < d && n == d * q + r
    ensures n / d == q
  {
    var q', r' := n / d, n % d;
    assert n == d * q' + r';
    assert d * (q - q') == r' - r;
    if q > q' {
      MulAtLeast(d, q - q');
    } else if q < q' {
      MulAtLeast(d, q' - q);
    }
  }

  /** One more piece of `d` adds one to the ceiling. */
  lemma CeilDivStep(n: nat, d: nat)
    requires d > 0 && n > d
    ensures CeilDiv(n, d) == 1 + CeilDiv(n - d, d)
  {
    var m := n - d + d - 1;
    var q, r := m / d, m % d;
    assert m == d * q + r;
    assert n + d - 1 == d * (q + 1) + r;
    DivUnique(n + d - 1, d, q + 1, r);
  }

  /** A payload of 1 to `d` elements takes exactly one piece. */
  lemma CeilDivOne(n: nat, d: nat)
    requires 0 < n <= d
    ensures CeilDiv(n, d) == 1
  {
    DivUnique(n + d - 1, d, 1, n - 1);
  }

  /** The number of pieces is the ceiling of `|s| / cap`; no pieces for an
      empty payload. */
  lemma {:induction false} ChunksCount<T>(s: seq<T>, cap: nat)
    requires cap > 0
    ensures |Chunks(s, cap)| == CeilDiv(|s|, cap)
    ensures |s| == 0 <==> Chunks(s, cap) == []
    decreases |s|
  {
    if |s| == 0 {
      DivUnique(cap - 1, cap, 0, cap - 1);
    } else if |s| <= cap {
      CeilDivOne(|s|, cap);
      assert s[Min(|s|, cap)..] == [];
    } else {
      ChunksCount(s[cap..], cap);
      CeilDivStep(|s|, cap);
    }
  }

  /** Every piece is non-empty and at most `cap` long, and every piece but
      the last is exactly `cap` long. */
  lemma {:induction false} ChunksSizes<T>(s: seq<T>, cap: nat)
    requires cap > 0
    ensures forall i :: 0 <= i < |Chunks(s, cap)| ==>
      0 < |Chunks(s, cap)[i]| <= cap
    ensures forall i :: 0 <= i < |Chunks(s, cap)| - 1 ==> |Chunks(s, cap)[i]| == cap
    decreases |s|
  {
    if |s| > 0 {
      var l := Min(|s|, cap);
      ChunksSizes(s[l..], cap);
      if l < cap {
        assert s[l..] == [];
      }
    }
  }

  /** Piece `i` starts at element `i * cap` of the payload: the piece a
      writer hands the bus after advancing its pointer past `i` full pieces. */
  lemma {:induction false} ChunkAt<T>(s: seq<T>, cap: nat, i: nat)
    requires cap > 0 && i < |Chunks(s, cap)|
    ensures i * cap < |s|
    ensures Chunks(s, cap)[i] == s[i * cap .. Min(i * cap + cap, |s|)]
    decreases |s|
  {
    var l := Min(|s|, cap);
    if i > 0 {
      var t := s[l..];
      ChunkAt(t, cap, i - 1);
      var j := (i - 1) * cap;
      assert j + cap == i * cap;
      assert Chunks(s, cap)[i] == Chunks(t, cap)[i - 1];
      assert t[j .. Min(j + cap, |t|)] == s[i * cap .. Min(i * cap + cap, |s|)];
    }
  }

  /** A slice of copies is copies. */
  lemma RepeatSlice<T>(x: T, n: nat, i: nat, j: nat)
    requires i <= j <= n
    ensures Repeat(x, n)[i..j] == Repeat(x, j - i)
  {
  }

  /** Where the last piece of `n` elements starts. */
  function LastPieceStart(n: nat, cap: nat): (r: nat)
    requires cap > 0
    ensures n > 0 ==> r < n <= r + cap
    decreases n
  {
    if n <= cap then 0 else cap + LastPieceStart(n - cap, cap)
  }

  /** The last piece is the tail of the payload from `LastPieceStart` on. */
  lemma {:induction false} LastChunk<T>(s: seq<T>, cap: nat)
    requires cap > 0 && s != []
    ensures Chunks(s, cap) != []
    ensures Chunks(s, cap)[|Chunks(s, cap)| - 1] == s[LastPieceStart(|s|, cap)..]
    decreases |s|
  {
    if |s| > cap {
      var t := s[cap..];
      assert Chunks(s, cap) == [s[..cap]] + Chunks(t, cap);
      LastChunk(t, cap);
      var k := LastPieceStart(|t|, cap);
      assert LastPieceStart(|s|, cap) == cap + k;
      assert t[k..] == s[cap + k..];
    }
  }
}
