/**
 * Splitting a sequence into consecutive bounded pieces.
 *
 * One concept serves three places of the system: the CSV splitter cuts the
 * exported rows into parts of at most one million rows, pagination cuts a
 * collection into pages of `limit` items, and the archive stream cuts the
 * archive bytes into chunks of 8192 bytes.
 */
module Chunking {

  /** The ceiling of `a / n`: the fewest pieces of size `n` that hold `a` items. */
  function CeilDiv(a: nat, n: nat): (r: nat)
    requires n > 0
    ensures a <= r * n < a + n
    ensures r == 0 <==> a == 0
    decreases a
  {
    if a == 0 then 0
    else if a <= n then 1
    else
      var r := CeilDiv(a - n, n) + 1;
      MulSucc(r - 1, n);
      r
  }

  /** One more piece of size `n` adds `n` items. */
  lemma MulSucc(k: nat, n: nat)
    ensures (k + 1) * n == k * n + n
  {
  }

  /** All pieces joined back together, in order. */
  function Flatten<T>(pieces: seq<seq<T>>): (r: seq<T>)
  {
    if |pieces| == 0 then [] else pieces[0] + Flatten(pieces[1..])
  }

  /**
   * `s` cut from the front into pieces of exactly `n` items, the last piece
   * holding what is left (between 1 and `n` items). An empty `s` gives no
   * piece at all, never an empty one.
   */
  function Chunks<T>(s: seq<T>, n: nat): seq<seq<T>>
    requires n > 0
    decreases |s|
  {
    if |s| == 0 then []
    else if |s| <= n then [s]
    else [s[..n]] + Chunks(s[n..], n)
  }

  /** Every piece is non-empty and holds at most `n` items; every piece but the last holds exactly `n`. */
  lemma {:induction false} ChunkSizes<T>(s: seq<T>, n: nat)
    requires n > 0
    ensures forall k :: 0 <= k < |Chunks(s, n)| ==> 0 < |Chunks(s, n)[k]| <= n
    ensures forall k :: 0 <= k < |Chunks(s, n)| - 1 ==> |Chunks(s, n)[k]| == n
    decreases |s|
  {
    if |s| > n {
      ChunkSizes(s[n..], n);
      var r := Chunks(s, n);
      assert r == [s[..n]] + Chunks(s[n..], n);
      assert forall k :: 1 <= k < |r| ==> r[k] == Chunks(s[n..], n)[k - 1];
    }
  }

  /** When every piece but the last has length `n`, the whole has length `n` per full piece plus the last. */
  lemma {:induction false} FlattenLength<T>(pieces: seq<seq<T>>, n: nat)
    requires |pieces| > 0
    requires forall k :: 0 <= k < |pieces| - 1 ==> |pieces[k]| == n
    ensures |Flatten(pieces)| == (|pieces| - 1) * n + |pieces[|pieces| - 1]|
  {
    if |pieces| > 1 {
      FlattenLength(pieces[1..], n);
      assert pieces[1..][|pieces| - 2] == pieces[|pieces| - 1];
      MulSucc(|pieces| - 2, n);
    }
  }

  /** Joining the pieces back together gives `s` again: nothing is lost, repeated or reordered. */
  lemma {:induction false} ChunksFlatten<T>(s: seq<T>, n: nat)
    requires n > 0
    ensures Flatten(Chunks(s, n)) == s
    decreases |s|
  {
    var c := Chunks(s, n);
    if |s| == 0 {
    } else if |s| <= n {
      assert c == [s] && c[1..] == [];
    } else {
      ChunksFlatten(s[n..], n);
      assert c[1..] == Chunks(s[n..], n);
      assert s[..n] + s[n..] == s;
    }
  }

  /** There are exactly `CeilDiv(|s|, n)` pieces. */
  lemma {:induction false} ChunksCount<T>(s: seq<T>, n: nat)
    requires n > 0
    ensures |Chunks(s, n)| == CeilDiv(|s|, n)
    decreases |s|
  {
    if |s| > n {
      ChunksCount(s[n..], n);
    }
  }

  /** The `n` items of `s` from `start` on, or fewer where `s` ends first. */
  function Window<T>(s: seq<T>, start: nat, n: nat): (w: seq<T>)
    requires start <= |s|
    ensures |w| <= n
  {
    s[start .. if start + n <= |s| then start + n else |s|]
  }

  /**
   * Piece `k` of `Chunks(s, n)` is the window of `s` that starts at `k * n`:
   * every piece starts where the one before it ends.
   */
  lemma {:induction false} ChunkAt<T>(s: seq<T>, n: nat, k: nat)
    requires n > 0 && k < |Chunks(s, n)|
    ensures k * n < |s|
    ensures Chunks(s, n)[k] == Window(s, k * n, n)
    decreases k
  {
    if |s| <= n {
      assert Chunks(s, n) == [s] && k == 0;
      assert Window(s, 0, n) == s[..|s|] == s;
    } else if k == 0 {
      assert Chunks(s, n)[0] == s[..n];
    } else {
      var t := s[n..];
      assert Chunks(s, n)[k] == Chunks(t, n)[k - 1];
      ChunkAt(t, n, k - 1);
      var j := (k - 1) * n;
      MulSucc(k - 1, n);
      assert j + n == k * n;
      SliceShift(s, n, j, if j + n <= |t| then j + n else |t|);
    }
  }

  /** A slice of the part of `s` after its first `n` items is a slice of `s` shifted by `n`. */
  lemma SliceShift<T>(s: seq<T>, n: nat, a: nat, b: nat)
    requires n <= |s| && a <= b <= |s| - n
    ensures s[n..][a..b] == s[n + a..n + b]
  {
  }

  /**
   * Appending one item to `s` either opens a new piece holding only that
   * item (when `s` is empty or its last piece is full) or extends the last
   * piece; every earlier piece is left as it was.
   */
  lemma {:induction false} ChunksSnoc<T>(s: seq<T>, x: T, n: nat)
    requires n > 0
    ensures var c := Chunks(s, n);
      Chunks(s + [x], n) ==
        if |c| == 0 || |c[|c| - 1]| == n then c + [[x]]
        else c[..|c| - 1] + [c[|c| - 1] + [x]]
    decreases |s|
  {
    var sx := s + [x];
    var c := Chunks(s, n);
    if |s| == 0 {
      assert sx == [x];
      assert Chunks(sx, n) == [[x]];
    } else if |s| < n {
      assert c == [s];
      assert Chunks(sx, n) == [sx];
    } else if |s| == n {
      assert c == [s];
      assert sx[..n] == s && sx[n..] == [x];
      assert Chunks(sx, n) == [s] + Chunks([x], n);
    } else {
      var t := s[n..];
      var ct := Chunks(t, n);
      assert c == [s[..n]] + ct;
      assert sx[..n] == s[..n] && sx[n..] == t + [x];
      assert Chunks(sx, n) == [s[..n]] + Chunks(t + [x], n);
      ChunksSnoc(t, x, n);
      assert |ct| > 0;
      assert c[|c| - 1] == ct[|ct| - 1];
      assert c[..|c| - 1] == [s[..n]] + ct[..|ct| - 1];
    }
  }

  /**
   * Taking the pieces one at a time from the front: the first piece of a
   * non-empty `s` is its first `n` items (or all of it), and the remaining
   * pieces are those of what follows it.
   */
  lemma ChunksUnfold<T>(s: seq<T>, n: nat)
    requires n > 0 && |s| > 0
    ensures var end := if n <= |s| then n else |s|;
      Chunks(s, n) == [s[..end]] + Chunks(s[end..], n)
  {
    if |s| <= n {
      assert s[..|s|] == s && s[|s|..] == [];
    }
  }

  /**
   * Reading on from position `pos`: the next piece is the window of `n`
   * items there, and the pieces after it are those of what follows it.
   */
  lemma ChunkStep<T>(s: seq<T>, pos: nat, n: nat)
    requires n > 0 && pos < |s|
    ensures var end := if pos + n <= |s| then pos + n else |s|;
      Chunks(s[pos..], n) == [s[pos..end]] + Chunks(s[end..], n)
  {
    var end := if pos + n <= |s| then pos + n else |s|;
    ChunksUnfold(s[pos..], n);
    assert s[pos..][end - pos..] == s[end..];
    assert s[pos..][..end - pos] == s[pos..end];
  }

  /**
   * Reading on from `pos` before the end: the pieces taken so far, then the
   * window at `pos`, then the pieces of what follows are still the whole.
   */
  lemma ReadOn<T>(s: seq<T>, pos: nat, n: nat, taken: seq<seq<T>>, all: seq<seq<T>>)
    requires n > 0 && pos < |s|
    requires taken + Chunks(s[pos..], n) == all
    ensures var end := if pos + n <= |s| then pos + n else |s|;
      (taken + [s[pos..end]]) + Chunks(s[end..], n) == all
  {
    ChunkStep(s, pos, n);
    var end := if pos + n <= |s| then pos + n else |s|;
    assert taken + ([s[pos..end]] + Chunks(s[end..], n)) == (taken + [s[pos..end]]) + Chunks(s[end..], n);
  }

  /** A read at the end comes back empty: every piece has been taken. */
  lemma ReadToEnd<T>(s: seq<T>, pos: nat, n: nat, taken: seq<seq<T>>, all: seq<seq<T>>)
    requires n > 0 && pos == |s|
    requires taken + Chunks(s[pos..], n) == all
    ensures taken == all
  {
    assert s[pos..] == [];
    assert taken + [] == taken;
  }
}
