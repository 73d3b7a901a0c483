/**
 The decay of unused pages: how many an arena may keep after the backlog of the last 200 epochs is
 weighted by the smoothstep table h (fixed point, 24 fraction bits), how the backlog moves on, how
 many pages will have to go after some epochs, and the background thread's search for the interval
 after which a worthwhile number does.  Sums are kept in 64 bits.
 */
module Decay {
  import opened Common

  const ONE: nat := 0x100_0000

  /** A backlog and a table that never decreases. */
  ghost predicate Table(h: seq<nat>) {
    |h| == 200 && forall i, j :: 0 <= i <= j < 200 ==> h[i] <= h[j]
  }

  /** The weighted sum of the first n epochs, without regard to overflow. */
  function Dot(b: seq<nat>, h: seq<nat>, n: nat): nat
    requires n <= |b| && n <= |h|
  {
    if n == 0 then 0 else Dot(b, h, n - 1) + b[n - 1] * h[n - 1]
  }

  /** The weighted sum fits the 64 bits it is computed in. */
  predicate Fits(b: seq<nat>, h: seq<nat>)
    requires |b| == |h| == 200
  {
    Dot(b, h, 200) < RANGE
  }

  function PageLimit(b: seq<nat>, h: seq<nat>): nat
    requires |b| == |h| == 200
  {
    Dot(b, h, 200) % RANGE / ONE
  }

  /** k epochs pass and nothing new becomes unused. */
  function Shift(b: seq<nat>, k: nat): (r: seq<nat>)
    requires |b| == 200 && k <= 200
    ensures |r| == 200
  {
    b[k..] + seq(k, _ => 0)
  }

  /** arena_decay_backlog_update: nadvance epochs pass, the last with delta new pages. */
  function Updated(b: seq<nat>, nadvance: nat, delta: nat): (r: seq<nat>)
    requires |b| == 200
    ensures |r| == 200
  {
    Shift(b, if nadvance >= 200 then 200 else nadvance)[199 := delta]
  }

  /** How much of epoch i's weight is gone after k epochs. */
  function Weight(h: seq<nat>, k: nat, i: nat): int
    requires i < |h|
  {
    h[i] as int - (if i < k then 0 else h[i - k])
  }

  /** The summands of decay_npurge_after_interval for the first n epochs. */
  function Drop(b: seq<nat>, h: seq<nat>, k: nat, n: nat): int
    requires |b| == |h| == 200 && k <= 200 && n <= 200
  {
    if n == 0 then 0
    else Drop(b, h, k, n - 1) + b[n - 1] * Weight(h, k, n - 1)
  }

  function Npurge(b: seq<nat>, h: seq<nat>, k: nat): nat
    requires |b| == |h| == 200 && k <= 200
  {
    Drop(b, h, k, 200) % RANGE / ONE
  }

  // ------------------------------------------------------------------ the identity

  lemma Distribute(b: int, x: int, y: int)
    ensures b * (x - y) == b * x - b * y
  {
  }

  lemma Scale(b: nat, x: nat, y: nat)
    requires x <= y
    ensures 0 <= b * x <= b * y
  {
  }

  /** What the first n epochs lose in k epochs is their weight now less their weight then. */
  lemma {:induction false} DropPrefix(b: seq<nat>, h: seq<nat>, k: nat, n: nat)
    requires |b| == |h| == 200 && k <= 200 && n <= 200
    ensures Drop(b, h, k, n) == Dot(b, h, n) - Dot(Shift(b, k), h, if n < k then 0 else n - k)
  {
    if n > 0 {
      DropPrefix(b, h, k, n - 1);
      if n - 1 >= k {
        assert Shift(b, k)[n - 1 - k] == b[n - 1];
        Distribute(b[n - 1], h[n - 1], h[n - 1 - k]);
      }
    }
  }

  lemma {:induction false} ZeroTail(b: seq<nat>, h: seq<nat>, from: nat, n: nat)
    requires from <= n <= |b| && n <= |h| && forall i :: from <= i < n ==> b[i] == 0
    ensures Dot(b, h, n) == Dot(b, h, from)
  {
    if from < n {
      ZeroTail(b, h, from, n - 1);
    }
  }

  /** The sum in decay_npurge_after_interval is the weighted backlog now minus the weighted backlog
      after k epochs without new pages. */
  lemma DropIsDifference(b: seq<nat>, h: seq<nat>, k: nat)
    requires |b| == |h| == 200 && k <= 200
    ensures Drop(b, h, k, 200) == Dot(b, h, 200) - Dot(Shift(b, k), h, 200)
  {
    DropPrefix(b, h, k, 200);
    ZeroTail(Shift(b, k), h, 200 - k, 200);
  }

  // ------------------------------------------------------------------ monotonicity

  lemma {:induction false} DropGrows(b: seq<nat>, h: seq<nat>, k: nat, k': nat, n: nat)
    requires |b| == 200 && Table(h) && k <= k' <= 200 && n <= 200
    ensures 0 <= Drop(b, h, k, n) <= Drop(b, h, k', n) <= Dot(b, h, n)
  {
    if n > 0 {
      DropGrows(b, h, k, k', n - 1);
      var i := n - 1;
      Scale(b[i], Weight(h, k, i), Weight(h, k', i));
      Scale(b[i], Weight(h, k', i), h[i]);
    }
  }

  /** While the weighted sum fits, no later sum overflows and rounding keeps the order. */
  lemma LimitNeverRises(b: seq<nat>, h: seq<nat>, nadvance: nat)
    requires |b| == 200 && Table(h) && Fits(b, h)
    ensures Fits(Updated(b, nadvance, 0), h)
    ensures PageLimit(Updated(b, nadvance, 0), h) <= PageLimit(b, h)
  {
    var k := if nadvance >= 200 then 200 else nadvance;
    DropIsDifference(b, h, k);
    DropGrows(b, h, k, k, 200);
    LastToZero(Shift(b, k), h);
    InOrder(Dot(Updated(b, nadvance, 0), h, 200), Dot(b, h, 200));
  }

  function Sum(b: seq<nat>, n: nat): nat
    requires n <= |b|
  {
    if n == 0 then 0 else Sum(b, n - 1) + b[n - 1]
  }

  lemma {:induction false} DotBound(b: seq<nat>, h: seq<nat>, n: nat)
    requires n <= |b| && n <= |h| && forall i :: 0 <= i < n ==> h[i] <= ONE
    ensures Dot(b, h, n) <= Sum(b, n) * ONE
  {
    if n > 0 {
      DotBound(b, h, n - 1);
      Scale(b[n - 1], h[n - 1], ONE);
    }
  }

  /** With weights of at most one, fewer than 2^40 unused pages never overflow the sum. */
  lemma FewPagesFit(b: seq<nat>, h: seq<nat>)
    requires |b| == |h| == 200 && (forall i :: 0 <= i < 200 ==> h[i] <= ONE)
    requires Sum(b, 200) < 0x100_0000_0000
    ensures Fits(b, h)
  {
    DotBound(b, h, 200);
  }

  lemma LastToZero(b: seq<nat>, h: seq<nat>)
    requires |b| == |h| == 200
    ensures Dot(b[199 := 0], h, 200) <= Dot(b, h, 200)
  {
    SamePrefix(b, b[199 := 0], h, 199);
    Scale(h[199], 0, b[199]);
  }

  lemma {:induction false} SamePrefix(b: seq<nat>, c: seq<nat>, h: seq<nat>, n: nat)
    requires n <= |b| && n <= |c| && n <= |h| && b[..n] == c[..n]
    ensures Dot(b, h, n) == Dot(c, h, n)
  {
    if n > 0 {
      assert b[..n][..n - 1] == b[..n - 1] && c[..n][..n - 1] == c[..n - 1];
      assert b[..n][n - 1] == c[..n][n - 1];
      SamePrefix(b, c, h, n - 1);
    }
  }

  lemma InOrder(x: nat, y: nat)
    requires x <= y < RANGE
    ensures x % RANGE / ONE <= y % RANGE / ONE
  {
  }

  /** More epochs, more pages to purge. */
  lemma NpurgeGrows(b: seq<nat>, h: seq<nat>, k: nat, k': nat)
    requires |b| == 200 && Table(h) && Fits(b, h) && k <= k' <= 200
    ensures Npurge(b, h, k) <= Npurge(b, h, k')
  {
    DropGrows(b, h, k, k', 200);
    InOrder(Drop(b, h, k, 200), Drop(b, h, k', 200));
  }

  /** Up to the rounding of two divisions, the pages to purge are how far the limit falls. */
  lemma NpurgeIsFall(b: seq<nat>, h: seq<nat>, k: nat)
    requires |b| == 200 && Table(h) && Fits(b, h) && k <= 200
    ensures var fall := PageLimit(b, h) - PageLimit(Shift(b, k), h);
      fall - 1 <= Npurge(b, h, k) <= fall
  {
    DropIsDifference(b, h, k);
    DropGrows(b, h, k, k, 200);
    Rounding(Dot(b, h, 200), Dot(Shift(b, k), h, 200));
  }

  lemma Rounding(x: nat, y: nat)
    requires y <= x < RANGE
    ensures var fall := x % RANGE / ONE - y % RANGE / ONE;
      fall - 1 <= (x - y) % RANGE / ONE <= fall
  {
  }

  // ------------------------------------------------------------------ the loops

  class ArenaDecay {
    var backlog: array<nat>
    var nunpurged: nat
    const h: seq<nat>

    ghost predicate Valid()
      reads this
    {
      backlog.Length == 200 && Table(h)
    }

    constructor (h: seq<nat>)
      requires Table(h)
      ensures Valid() && this.h == h && nunpurged == 0
      ensures fresh(backlog) && forall i :: 0 <= i < 200 ==> backlog[i] == 0
    {
      backlog := new nat[200](_ => 0);
      nunpurged := 0;
      this.h := h;
    }

    /** arena_decay_backlog_npages_limit */
    method NpagesLimit() returns (r: nat)
      requires Valid()
      ensures r == PageLimit(backlog[..], h)
    {
      var sum: int := 0;
      var i := 0;
      while i < 200
        invariant 0 <= i <= 200 && sum == Dot(backlog[..], h, i) % RANGE
      {
        ModStep(Dot(backlog[..], h, i), backlog[i] * h[i]);
        sum := Added(sum, backlog[i], h[i]);
        i := i + 1;
      }
      r := sum / ONE;
    }

    /** arena_decay_backlog_update */
    method Update(nadvance: nat, current: nat)
      requires Valid()
      modifies backlog
      ensures Valid()
      ensures backlog[..] == Updated(old(backlog[..]), nadvance,
                                     if current > nunpurged then current - nunpurged else 0)
    {
      ghost var b := backlog[..];
      var n := if nadvance >= 200 then 200 else nadvance;
      if nadvance >= 200 {
        forall i | 0 <= i < 199 {
          backlog[i] := 0;
        }
      } else {
        forall i | 0 <= i < 200 - n {
          backlog[i] := backlog[i + n];
        }
        if n > 1 {
          forall i | 200 - n <= i < 199 {
            backlog[i] := 0;
          }
        }
      }
      var delta := if current > nunpurged then current - nunpurged else 0;
      backlog[199] := delta;
      forall i | 0 <= i < 200 ensures backlog[i] == Updated(b, nadvance, delta)[i] {
      }
    }

    /** decay_npurge_after_interval */
    method NpurgeAfter(interval: nat) returns (r: nat)
      requires Valid() && interval <= 200
      ensures r == Npurge(backlog[..], h, interval)
    {
      ghost var b := backlog[..];
      var sum: int := 0;
      var i := 0;
      while i < interval
        invariant 0 <= i <= interval && sum == Drop(b, h, interval, i) % RANGE
      {
        NextDrop(b, h, interval, i, sum, h[i]);
        sum := Added(sum, backlog[i], h[i]);
        i := i + 1;
      }
      while i < 200
        invariant interval <= i <= 200 && sum == Drop(b, h, interval, i) % RANGE
      {
        NextDrop(b, h, interval, i, sum, h[i] - h[i - interval]);
        sum := Added(sum, backlog[i], h[i] - h[i - interval]);
        i := i + 1;
      }
      r := sum / ONE;
    }

    /** The interval search: lb and ub close in on where the pages to purge pass the threshold. */
    method Search(lb0: nat, threshold: nat) returns (lb: nat, ub: nat, rounds: nat)
      requires Valid() && 2 <= lb0 && lb0 + 2 <= 200
      requires Npurge(backlog[..], h, lb0) <= threshold <= Npurge(backlog[..], h, 200)
      ensures lb0 <= lb < ub <= 200
      ensures Npurge(backlog[..], h, lb) <= threshold <= Npurge(backlog[..], h, ub)
      ensures Npurge(backlog[..], h, ub) <= Npurge(backlog[..], h, lb) + threshold || ub <= lb + 2
      ensures rounds <= 7
    {
      ghost var b := backlog[..];
      lb, ub, rounds := lb0, 200, 0;
      var npurgeLb := NpurgeAfter(lb);
      var npurgeUb := NpurgeAfter(ub);
      while npurgeLb + threshold < npurgeUb && lb + 2 < ub
        invariant lb0 <= lb < ub <= 200
        invariant npurgeLb == Npurge(b, h, lb) <= threshold <= npurgeUb == Npurge(b, h, ub)
        invariant rounds <= 7 && ub - lb <= Width(rounds)
        decreases ub - lb
      {
        var target := (lb + ub) / 2;
        var npurge := NpurgeAfter(target);
        if npurge > threshold {
          ub, npurgeUb := target, npurge;
        } else {
          lb, npurgeLb := target, npurge;
        }
        rounds := rounds + 1;
      }
    }

    /** arena_decay_compute_purge_interval_impl, in nanoseconds, with the reason for the answer. */
    method PurgeInterval(contended: bool, decayTime: int, d: nat, npages: nat)
      returns (interval: nat, why: Why)
      requires Valid() && d > 0
      ensures interval >= MIN_INTERVAL
      ensures why.Contended? <==> contended
      ensures why.Idle? <==> !contended && (decayTime <= 0 || (npages == 0 && Dot(backlog[..], Ones(), 200) == 0))
      ensures why.Few? <==> !contended && !why.Idle? && npages <= THRESHOLD
      ensures interval == match why
                          case Contended => MIN_INTERVAL
                          case Idle => INDEFINITE
                          case Few => AtLeast(d * 200 % RANGE)
                          case Short => MIN_INTERVAL
                          case Soon(lb) => AtLeast(d * lb % RANGE)
                          case Never => AtLeast(d * 200 % RANGE)
                          case Between(lb, ub) => AtLeast(d * (ub + lb) % RANGE / 2)
      ensures match why
              case Short => TooShort(d)
              case Soon(lb) => !TooShort(d) && lb == Earliest(d) && Npurge(backlog[..], h, lb) > THRESHOLD
              case Never => !TooShort(d) && Npurge(backlog[..], h, Earliest(d)) <= THRESHOLD
                            && Npurge(backlog[..], h, 200) < THRESHOLD
              case Between(lb, ub) =>
                && !TooShort(d) && Npurge(backlog[..], h, Earliest(d)) <= THRESHOLD
                && Earliest(d) <= lb < ub <= 200
                && Npurge(backlog[..], h, lb) <= THRESHOLD <= Npurge(backlog[..], h, ub)
                && (Npurge(backlog[..], h, ub) <= Npurge(backlog[..], h, lb) + THRESHOLD
                    || ub <= lb + 2)
              case _ => true
    {
      if contended {
        return MIN_INTERVAL, Contended;
      }
      if decayTime <= 0 {
        return AtLeast(INDEFINITE), Idle;
      }
      AllOnes(backlog[..], 200);
      if npages == 0 {
        var i := 0;
        while i < 200 && backlog[i] == 0
          invariant 0 <= i <= 200 && forall j :: 0 <= j < i ==> backlog[j] == 0
        {
          i := i + 1;
        }
        if i == 200 {
          return AtLeast(INDEFINITE), Idle;
        }
      }
      if npages <= THRESHOLD {
        return AtLeast(d * 200 % RANGE), Few;
      }
      var lb := MIN_INTERVAL / d;
      var ub := 200;
      lb := if lb < 2 then 2 else lb;
      if d * ub % RANGE <= MIN_INTERVAL || lb + 2 > ub {
        return MIN_INTERVAL, Short;
      }
      var npurge := NpurgeAfter(lb);
      if npurge > THRESHOLD {
        return AtLeast(d * lb % RANGE), Soon(lb);
      }
      npurge := NpurgeAfter(ub);
      if npurge < THRESHOLD {
        return AtLeast(d * ub % RANGE), Never;
      }
      var rounds;
      lb, ub, rounds := Search(lb, THRESHOLD);
      return AtLeast(d * (ub + lb) % RANGE / 2), Between(lb, ub);
    }
  }

  /** Why the background thread sleeps as long as it does. */
  datatype Why =
    | Contended | Idle | Few | Short
    | Soon(lb: nat)                // the earliest wake-up already finds enough to purge
    | Never                        // even full decay purges too little
    | Between(lb: nat, ub: nat)    // where the search ended

  /** The first wake-up that is neither sooner than the shortest interval nor within two decay intervals. */
  function Earliest(d: nat): nat
    requires d > 0
  {
    if MIN_INTERVAL / d < 2 then 2 else MIN_INTERVAL / d
  }

  /** The whole decay takes no longer than the shortest interval, or hardly longer. */
  predicate TooShort(d: nat)
    requires d > 0
  {
    d * 200 % RANGE <= MIN_INTERVAL || Earliest(d) + 2 > 200
  }

  const MIN_INTERVAL: nat := 100_000_000
  const INDEFINITE: nat := RANGE - 1
  const THRESHOLD: nat := 1024

  function AtLeast(interval: nat): nat {
    if interval < MIN_INTERVAL then MIN_INTERVAL else interval
  }

  function Ones(): (r: seq<nat>)
    ensures |r| == 200
  {
    seq(200, _ => 1)
  }

  /** A backlog without pages, said as a sum. */
  lemma {:induction false} AllOnes(b: seq<nat>, n: nat)
    requires |b| == 200 && n <= 200
    ensures Dot(b, Ones(), n) == 0 <==> forall i :: 0 <= i < n ==> b[i] == 0
  {
    if n > 0 {
      AllOnes(b, n - 1);
    }
  }

  /** One product more, in 64 bits. */
  function Added(sum: int, pages: nat, weight: int): int { (sum + pages * weight) % RANGE }

  lemma NextDrop(b: seq<nat>, h: seq<nat>, k: nat, i: nat, sum: int, w: int)
    requires |b| == |h| == 200 && k <= 200 && i < 200
    requires sum == Drop(b, h, k, i) % RANGE && w == Weight(h, k, i)
    ensures Added(sum, b[i], w) == Drop(b, h, k, i + 1) % RANGE
  {
    ModStep(Drop(b, h, k, i), b[i] * w);
  }

  /** How far apart the bounds can be after so many rounds. */
  function Width(rounds: nat): nat {
    [198, 99, 50, 25, 13, 7, 4, 2][if rounds > 7 then 7 else rounds]
  }
}
