/** The client's progress bookkeeping: a ring of the chunk counts of the last
    five seconds, their average in 32-bit int arithmetic, and the split of a
    number of seconds into hours, minutes and seconds for display. */
module Progress {
  import opened Primitives

  const WINDOW: nat := 5

  /** The slots of the ring and the index of the slot written next. */
  datatype Ring = Ring(slots: seq<int32>, next: int)

  /** Writing one count into the ring. */
  function Push(r: Ring, v: int32): (r': Ring)
    requires |r.slots| == WINDOW && 0 <= r.next < WINDOW
    ensures |r'.slots| == WINDOW && 0 <= r'.next < WINDOW
    ensures r'.slots[r.next] == v && r'.next == (r.next + 1) % WINDOW
    ensures forall j :: 0 <= j < WINDOW && j != r.next ==> r'.slots[j] == r.slots[j]
  {
    Ring(r.slots[r.next := v], (r.next + 1) % WINDOW)
  }

  /** The ring after writing `vs` in order. */
  function PushAll(r: Ring, vs: seq<int32>): (r': Ring)
    requires |r.slots| == WINDOW && 0 <= r.next < WINDOW
    ensures |r'.slots| == WINDOW && 0 <= r'.next < WINDOW
  {
    if vs == [] then r else Push(PushAll(r, vs[..|vs| - 1]), vs[|vs| - 1])
  }

  /** The exact sum of the counts. */
  function Sum(s: seq<int>): int
  {
    if s == [] then 0 else Sum(s[..|s| - 1]) + s[|s| - 1]
  }

  /** Hours, minutes and seconds as the display computes them. */
  datatype Clock = Clock(hours: int, minutes: int, seconds: int)

  /** `seconds / 3600`, `(seconds % 3600) / 60` and `seconds % 60` with Java's
      truncating long arithmetic: the three fields add back up to the input
      for every input, and are the usual clock fields for a non-negative
      one. */
  function ConvertToHHMMSS(seconds: int): (c: Clock)
    ensures c.hours * 3600 + c.minutes * 60 + c.seconds == seconds
    ensures seconds >= 0 ==> c.hours == seconds / 3600 && 0 <= c.minutes < 60 && 0 <= c.seconds < 60
    ensures seconds < 0 ==> c.hours <= 0 && -60 < c.minutes <= 0 && -60 < c.seconds <= 0
  {
    var h := JavaDiv(seconds, 3600);
    var withinHour := JavaRem(seconds, 3600);
    var m := JavaDiv(withinHour, 60);
    var s := JavaRem(seconds, 60);
    RemainderOfRemainder(seconds, h, withinHour, m);
    Clock(h, m, s)
  }

  /** The seconds field taken from the whole input equals the one taken from
      the remainder within the hour. */
  lemma RemainderOfRemainder(seconds: int, h: int, withinHour: int, m: int)
    requires h == JavaDiv(seconds, 3600) && withinHour == JavaRem(seconds, 3600) && m == JavaDiv(withinHour, 60)
    ensures JavaRem(withinHour, 60) == JavaRem(seconds, 60)
    ensures h * 3600 + m * 60 + JavaRem(seconds, 60) == seconds
    ensures seconds >= 0 ==> h >= 0 && 0 <= m < 60
    ensures seconds < 0 ==> h <= 0 && -60 < m <= 0
  {
    var s1 := JavaRem(withinHour, 60);
    var s2 := JavaRem(seconds, 60);
    var q := JavaDiv(seconds, 60);
    assert seconds == h * 3600 + m * 60 + s1;
    assert seconds == q * 60 + s2;
    assert s1 - s2 == 60 * (q - h * 60 - m);
    SmallMultiple(s1 - s2, q - h * 60 - m);
    if seconds >= 0 {
      assert h >= 0;
      assert 0 <= withinHour < 3600;
      assert m * 60 <= withinHour;
    } else {
      assert -3600 < withinHour <= 0;
      assert h <= 0;
    }
  }

  lemma SmallMultiple(d: int, k: int)
    requires d == 60 * k && -60 < d < 60
    ensures d == 0
  {
  }

  /** The ring and its position; the ring is a fixed five-slot buffer. */
  class InfoPrinter {
    const lastChnkDl: array<int32>
    var lastIdx: int

    ghost predicate Valid()
      reads this
    {
      lastChnkDl.Length == WINDOW && 0 <= lastIdx < WINDOW
    }

    constructor ()
      ensures Valid() && fresh(lastChnkDl)
      ensures lastChnkDl[..] == [0, 0, 0, 0, 0] && lastIdx == 0
    {
      lastChnkDl := new int32[WINDOW](_ => 0);
      lastIdx := 0;
    }

    /** Records the chunk count of the second that just ended, overwriting
        the oldest of the five. */
    method UpdateLastSecond(chunksDownloaded: int32)
      requires Valid()
      modifies lastChnkDl, this`lastIdx
      ensures Valid()
      ensures Ring(lastChnkDl[..], lastIdx) == Push(Ring(old(lastChnkDl[..]), old(lastIdx)), chunksDownloaded)
    {
      lastChnkDl[lastIdx] := chunksDownloaded;
      lastIdx := (lastIdx + 1) % WINDOW;
    }

    /** The average of the five counts: an int accumulator (wrapping on
        overflow) divided by five with truncation. */
    method GetAverageChunks() returns (avg: int32)
      requires Valid()
      ensures avg == JavaDiv(Wrap32(Sum(lastChnkDl[..])), WINDOW)
    {
      var avgSpeed: int32 := 0;
      var i := 0;
      while i < lastChnkDl.Length
        invariant 0 <= i <= lastChnkDl.Length
        invariant avgSpeed == Wrap32(Sum(lastChnkDl[..i]))
      {
        assert lastChnkDl[..i + 1][..i] == lastChnkDl[..i];
        Wrap32AddLeft(Sum(lastChnkDl[..i]), lastChnkDl[i]);
        avgSpeed := Wrap32(avgSpeed + lastChnkDl[i]);
        i := i + 1;
      }
      assert lastChnkDl[..i] == lastChnkDl[..];
      avg := JavaDiv(avgSpeed, WINDOW);
    }
  }

  /** After at least five updates, the ring holds exactly the last five
      counts: the one written `k` updates after the start sits in slot
      `(next + k) % 5`. */
  lemma {:induction false} RingHoldsLastFive(r: Ring, vs: seq<int32>, k: nat)
    requires |r.slots| == WINDOW && 0 <= r.next < WINDOW
    requires |vs| >= WINDOW && |vs| - WINDOW <= k < |vs|
    ensures PushAll(r, vs).slots[(r.next + k) % WINDOW] == vs[k]
    ensures PushAll(r, vs).next == (r.next + |vs|) % WINDOW
  {
    RingAfterPushes(r, vs, k);
  }

  lemma {:induction false} RingAfterPushes(r: Ring, vs: seq<int32>, k: nat)
    requires |r.slots| == WINDOW && 0 <= r.next < WINDOW
    requires k < |vs| && |vs| - WINDOW <= k
    ensures PushAll(r, vs).slots[(r.next + k) % WINDOW] == vs[k]
    ensures PushAll(r, vs).next == (r.next + |vs|) % WINDOW
    decreases |vs|
  {
    var prefix := vs[..|vs| - 1];
    RingPosition(r, prefix);
    var before := PushAll(r, prefix);
    var after := Push(before, vs[|vs| - 1]);
    assert PushAll(r, vs) == after;
    var slot := (r.next + k) % WINDOW;
    var last := (r.next + |vs| - 1) % WINDOW;
    assert before.next == last;
    NextSlot(r.next + |vs| - 1, r.next + |vs|);
    if k < |vs| - 1 {
      assert prefix[k] == vs[k];
      RingAfterPushes(r, prefix, k);
      assert before.slots[slot] == vs[k];
      DistinctSlots(r.next + k, r.next + |vs| - 1);
      assert slot != last;
      assert after.slots[slot] == before.slots[slot];
    }
  }

  /** The slot after the one position `a` names is the one `a + 1` names. */
  lemma NextSlot(a: int, b: int)
    requires b == a + 1
    ensures (a % WINDOW + 1) % WINDOW == b % WINDOW
  {
    var q := a / WINDOW;
    assert a == WINDOW * q + a % WINDOW;
    if a % WINDOW == WINDOW - 1 {
      assert b == WINDOW * (q + 1);
    } else {
      assert b == WINDOW * q + (a % WINDOW + 1);
    }
  }

  /** The write position after `n` updates is `n` slots further on. */
  lemma {:induction false} RingPosition(r: Ring, vs: seq<int32>)
    requires |r.slots| == WINDOW && 0 <= r.next < WINDOW
    ensures PushAll(r, vs).next == (r.next + |vs|) % WINDOW
    decreases |vs|
  {
    if vs != [] {
      var prefix := vs[..|vs| - 1];
      RingPosition(r, prefix);
      var before := PushAll(r, prefix);
      assert PushAll(r, vs) == Push(before, vs[|vs| - 1]);
      NextSlot(r.next + |prefix|, r.next + |vs|);
    }
  }

  /** Positions fewer than five apart fall in different slots. */
  lemma DistinctSlots(a: int, b: int)
    requires a < b < a + WINDOW
    ensures a % WINDOW != b % WINDOW
  {
  }

  /** For non-negative counts whose sum fits an int, the figure is the
      average rounded down. */
  lemma AverageIsFloorMean(slots: seq<int32>)
    requires |slots| == WINDOW
    requires forall i :: 0 <= i < |slots| ==> slots[i] >= 0
    requires Sum(slots) <= INT32_MAX
    ensures JavaDiv(Wrap32(Sum(slots)), WINDOW) == Sum(slots) / WINDOW
    ensures JavaDiv(Wrap32(Sum(slots)), WINDOW) * WINDOW <= Sum(slots) < (JavaDiv(Wrap32(Sum(slots)), WINDOW) + 1) * WINDOW
  {
    SumNonNegative(slots);
  }

  lemma {:induction false} SumNonNegative(s: seq<int32>)
    requires forall i :: 0 <= i < |s| ==> s[i] >= 0
    ensures Sum(s) >= 0
    decreases |s|
  {
    if s != [] {
      SumNonNegative(s[..|s| - 1]);
    }
  }

  /** Five seconds of half a billion chunks each overflow the accumulator:
      the reported average is negative. */
  lemma AverageOverflows()
    ensures JavaDiv(Wrap32(Sum([500000000, 500000000, 500000000, 500000000, 500000000])), WINDOW) == -358993459
  {
    var vs: seq<int> := [500000000, 500000000, 500000000, 500000000, 500000000];
    assert vs[..1][..0] == [] && vs[..2][..1] == vs[..1] && vs[..3][..2] == vs[..2];
    assert vs[..4][..3] == vs[..3] && vs[..5][..4] == vs[..4] && vs[..5] == vs;
    assert Sum(vs[..1]) == 500000000;
    assert Sum(vs[..2]) == 1000000000;
    assert Sum(vs[..3]) == 1500000000;
    assert Sum(vs[..4]) == 2000000000;
    assert Sum(vs) == 2500000000;
    assert Wrap32(2500000000) == -1794967296;
  }
}
