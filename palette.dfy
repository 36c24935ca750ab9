/** Colours, the optional wrapper Swift writes as `T?`, and the ring
    arithmetic that both colour emitters rely on. */
module Palette {

  /** A SwiftUI colour; only equality between colours matters to the wave queue. */
  datatype Color = Red | Green | Blue | White | Custom(rgba: nat)

  /** Swift's `Optional`. */
  datatype Option<T> = None | Some(value: T)

  /** The ring `s` turned so that it starts at position `k`. */
  function Rotate<T>(s: seq<T>, k: nat): (r: seq<T>)
    requires k <= |s|
    ensures |r| == |s|
    ensures forall i :: 0 <= i < |s| - k ==> r[i] == s[k + i]
    ensures forall i :: |s| - k <= i < |s| ==> r[i] == s[k + i - |s|]
  {
    s[k..] + s[..k]
  }

  /** Position `i` of the ring turned to `k` holds the element `k + i` steps round the ring. */
  lemma RotateAt<T>(s: seq<T>, k: nat, i: nat)
    requires k < |s| && i < |s|
    ensures Rotate(s, k)[i] == s[(k + i) % |s|]
  {
    WrapOnce(k + i, |s|);
  }

  /** A position less than two laps round a ring of size `n` wraps at most once. */
  lemma WrapOnce(a: nat, n: nat)
    requires 0 < n && a < 2 * n
    ensures a % n == if a < n then a else a - n
  {
    if a >= n {
      assert a - n < n;
      assert a == 1 * n + (a - n);
    }
  }

  /** The colours `n` successive draws yield from a ring over `p` whose next draw is `p[start]`. */
  function Outputs<T>(p: seq<T>, start: nat, n: nat): (r: seq<T>)
    requires |p| > 0
    ensures |r| == n
  {
    seq(n, i requires 0 <= i < n => p[(start + i) % |p|])
  }

  /** Taking the head of a ring and putting it at the back turns the ring by one
      position, and the head is the element the ring started at. */
  lemma RotateHeadToBack<T>(s: seq<T>, k: nat)
    requires k < |s|
    ensures Rotate(s, k)[0] == s[k]
    ensures Rotate(s, k)[1..] + [Rotate(s, k)[0]] == Rotate(s, (k + 1) % |s|)
  {
    var r := Rotate(s, k);
    var turned := r[1..] + [r[0]];
    if k + 1 < |s| {
      assert (k + 1) % |s| == k + 1 by { WrapOnce(k + 1, |s|); }
      assert turned == s[k + 1..] + s[..k + 1];
    } else {
      assert (k + 1) % |s| == 0 by { WrapOnce(k + 1, |s|); }
      assert turned == s;
    }
  }

  /** One more draw appends the element at the current position: the draws of a
      loop can be accumulated one by one. */
  lemma OutputsSnoc<T>(p: seq<T>, start: nat, n: nat)
    requires |p| > 0
    ensures Outputs(p, start, n + 1) == Outputs(p, start, n) + [p[(start + n) % |p|]]
  {
  }

  lemma {:induction false} MulAtLeastOnce(d: int, n: int)
    requires 0 < n && d >= 1
    ensures d * n >= n
  {
    if d > 1 {
      MulAtLeastOnce(d - 1, n);
      assert d * n == (d - 1) * n + n;
    }
  }

  /** A position written as whole laps plus a remainder less than a lap is that remainder. */
  lemma ModUnique(a: int, n: int, q: int, r: int)
    requires 0 < n && 0 <= r < n && a == q * n + r
    ensures a % n == r
  {
    var q', r' := a / n, a % n;
    assert a == q' * n + r';
    var d := q - q';
    assert d * n == r' - r by {
      assert q * n - q' * n == (q - q') * n;
    }
    if d >= 1 {
      MulAtLeastOnce(d, n);
    } else if d <= -1 {
      MulAtLeastOnce(-d, n);
    }
  }

  /** Adding one whole lap does not change a position on a ring. */
  lemma ModAddN(a: nat, n: nat)
    requires 0 < n
    ensures (a + n) % n == a % n
  {
    var q, r := a / n, a % n;
    assert a == q * n + r;
    ModUnique(a + n, n, q + 1, r);
  }

  /** Wrapping a position before moving on from it does not change where one lands. */
  lemma ModAddLeft(a: nat, b: nat, n: nat)
    requires 0 < n
    ensures (a % n + b) % n == (a + b) % n
  {
    var q, q2, r2 := a / n, (a % n + b) / n, (a % n + b) % n;
    assert a == q * n + a % n;
    assert a % n + b == q2 * n + r2;
    assert a + b == (q + q2) * n + r2;
    ModUnique(a + b, n, q + q2, r2);
  }

  /** Round-robin fairness: `|p|` draws starting at the front yield the palette in
      order, and the next draw repeats its first colour. */
  lemma FairRoundRobin<T>(p: seq<T>)
    requires |p| > 0
    ensures Outputs(p, 0, |p|) == p
    ensures Outputs(p, 0, |p| + 1) == p + [p[0]]
  {
    forall i | 0 <= i < |p| ensures Outputs(p, 0, |p|)[i] == p[i] {
      WrapOnce(i, |p|);
    }
    OutputsSnoc(p, 0, |p|);
    assert (0 + |p|) % |p| == 0 by { WrapOnce(|p|, |p|); }
  }

  /** From any starting position, `|p|` successive draws are the palette turned
      to that position: each colour exactly once, in palette order. */
  lemma OneLapIsRotation<T>(p: seq<T>, start: nat)
    requires start < |p|
    ensures Outputs(p, start, |p|) == Rotate(p, start)
  {
    forall i | 0 <= i < |p| ensures Outputs(p, start, |p|)[i] == Rotate(p, start)[i] {
      RotateAt(p, start, i);
    }
  }

  /** Successive draws repeat with period `|p|`. */
  lemma DrawsArePeriodic<T>(p: seq<T>, start: nat, n: nat, i: nat)
    requires |p| > 0
    requires i + |p| < n
    ensures Outputs(p, start, n)[i + |p|] == Outputs(p, start, n)[i]
  {
    ModAddN(start + i, |p|);
    assert start + (i + |p|) == (start + i) + |p|;
  }
}
