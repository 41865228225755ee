/** The fixed-capacity sample store (internal/storage/ringbuffer.go): a ring of
    slots, a write cursor `head` and a count `size`. The reader/writer lock is
    not modelled; every operation is taken to run atomically. */
module Storage {
  import opened Wrappers
  import opened Collector

  const NanosPerSecond: int := 1_000_000_000

  /** The largest window, in seconds, whose length in nanoseconds fits a Go
      time.Duration (an int64). */
  const MaxExactWindow: int := 9_223_372_036

  /** Two's-complement wrap-around of an exact integer into an int64. */
  function WrapInt64(x: int): int
  {
    (x + 0x8000_0000_0000_0000) % 0x1_0000_0000_0000_0000 - 0x8000_0000_0000_0000
  }

  /** The wrapped value is an int64, and an int64 is left as it is. */
  lemma WrapInt64Range(x: int)
    ensures -0x8000_0000_0000_0000 <= WrapInt64(x) < 0x8000_0000_0000_0000
    ensures -0x8000_0000_0000_0000 <= x < 0x8000_0000_0000_0000 ==> WrapInt64(x) == x
  {
  }

  /** The instant a history query of `seconds` seconds cuts off at: now plus
      the duration -time.Duration(seconds) * time.Second. The negation comes
      before the multiplication, and both wrap as int64 arithmetic does, which
      amounts to one wrap of the exact product. The cutoff is thus always
      within one int64 duration of `now`. */
  function Cutoff(now: Time, seconds: int): (r: Time)
    ensures now - 0x8000_0000_0000_0000 <= r < now + 0x8000_0000_0000_0000
  {
    WrapInt64Range(-seconds * NanosPerSecond);
    now + WrapInt64(-seconds * NanosPerSecond)
  }

  lemma CutoffOfOrdinaryWindow(now: Time, seconds: int)
    requires -MaxExactWindow <= seconds <= MaxExactWindow
    ensures Cutoff(now, seconds) == now - seconds * NanosPerSecond
  {
    WrapInt64Range(seconds * NanosPerSecond);
  }

  /** A window one second longer than MaxExactWindow overflows time.Duration
      and wraps to a negative duration, so the cutoff lies in the future. */
  lemma OverlongWindowCutsOffInFuture(now: Time)
    ensures Cutoff(now, MaxExactWindow + 1) == now + 9_223_372_036_709_551_616
  {
  }

  /** A window one second longer than MaxExactWindow the other way wraps to
      a positive duration, so the cutoff lies about 292 years in the past. */
  lemma OverlongNegativeWindowCutsOffInPast(now: Time)
    ensures Cutoff(now, -(MaxExactWindow + 1)) == now - 9_223_372_036_709_551_616
  {
  }

  /** A window of 2^54 seconds, either way, wraps to the most negative
      duration, so the cutoff lies about 292 years before `now`. */
  lemma WrappedWindowCutsOffInPast(now: Time)
    ensures Cutoff(now, 0x40_0000_0000_0000) == now - 0x8000_0000_0000_0000
    ensures Cutoff(now, -0x40_0000_0000_0000) == now - 0x8000_0000_0000_0000
  {
  }

  /** Such a window returns every stored sample taken less than 2^63 ns
      before `now`. */
  lemma WrappedWindowKeepsAll(s: seq<MetricSample>, now: Time)
    requires forall i :: 0 <= i < |s| ==> s[i].timestamp > now - 0x8000_0000_0000_0000
    ensures NewerThan(s, Cutoff(now, 0x40_0000_0000_0000)) == s
    ensures NewerThan(s, Cutoff(now, -0x40_0000_0000_0000)) == s
  {
    WrappedWindowCutsOffInPast(now);
    NewerThanKeepsAll(s, Cutoff(now, 0x40_0000_0000_0000));
  }

  /** The last `n` elements of `s`, or all of `s` when it has fewer. */
  function Recent<T>(s: seq<T>, n: nat): (r: seq<T>)
    ensures |r| == if |s| < n then |s| else n
  {
    if |s| <= n then s else s[|s| - n..]
  }

  /** The samples of `s` taken strictly after `cutoff`, in their order in `s`. */
  function NewerThan(s: seq<MetricSample>, cutoff: Time): (r: seq<MetricSample>)
    ensures |r| <= |s|
  {
    if s == [] then []
    else
      var last := s[|s| - 1];
      NewerThan(s[..|s| - 1], cutoff) + (if last.timestamp > cutoff then [last] else [])
  }

  /** The history holds exactly the samples taken after the cutoff. */
  lemma {:induction false} NewerThanMembers(s: seq<MetricSample>, cutoff: Time)
    ensures forall x :: x in NewerThan(s, cutoff) <==> x in s && x.timestamp > cutoff
  {
    if s != [] {
      NewerThanMembers(s[..|s| - 1], cutoff);
      assert s == s[..|s| - 1] + [s[|s| - 1]];
    }
  }

  /** A window that reaches back past every sample keeps them all. */
  lemma {:induction false} NewerThanKeepsAll(s: seq<MetricSample>, cutoff: Time)
    requires forall i :: 0 <= i < |s| ==> s[i].timestamp > cutoff
    ensures NewerThan(s, cutoff) == s
  {
    if s != [] {
      NewerThanKeepsAll(s[..|s| - 1], cutoff);
      assert s[..|s| - 1] + [s[|s| - 1]] == s;
    }
  }

  /** A window that starts after every sample keeps none. */
  lemma {:induction false} NewerThanDropsAll(s: seq<MetricSample>, cutoff: Time)
    requires forall i :: 0 <= i < |s| ==> s[i].timestamp <= cutoff
    ensures NewerThan(s, cutoff) == []
  {
    if s != [] {
      NewerThanDropsAll(s[..|s| - 1], cutoff);
    }
  }

  /** Samples in the order of the clock that took them. */
  ghost predicate Chronological(s: seq<MetricSample>)
  {
    forall i, j :: 0 <= i < j < |s| ==> s[i].timestamp <= s[j].timestamp
  }

  /** On samples in clock order, the history is the newest part of them. */
  lemma {:induction false} NewerThanIsSuffix(s: seq<MetricSample>, cutoff: Time)
    requires Chronological(s)
    ensures |NewerThan(s, cutoff)| <= |s|
    ensures NewerThan(s, cutoff) == s[|s| - |NewerThan(s, cutoff)|..]
  {
    if s != [] {
      var init, last := s[..|s| - 1], s[|s| - 1];
      if last.timestamp > cutoff {
        assert Chronological(init) by {
          forall i, j | 0 <= i < j < |init| ensures init[i].timestamp <= init[j].timestamp {
            assert init[i] == s[i] && init[j] == s[j];
          }
        }
        NewerThanIsSuffix(init, cutoff);
        var k := |NewerThan(init, cutoff)|;
        assert s[|s| - (k + 1)..] == init[|init| - k..] + [last];
      } else {
        forall i | 0 <= i < |init| ensures init[i].timestamp <= cutoff {
          assert init[i] == s[i];
        }
        NewerThanDropsAll(init, cutoff);
      }
    }
  }

  /** A window of zero or fewer seconds keeps nothing taken up to `now`. */
  lemma EmptyWindowKeepsNothing(s: seq<MetricSample>, now: Time, seconds: int)
    requires -MaxExactWindow <= seconds <= 0
    requires forall i :: 0 <= i < |s| ==> s[i].timestamp <= now
    ensures NewerThan(s, Cutoff(now, seconds)) == []
  {
    CutoffOfOrdinaryWindow(now, seconds);
    NewerThanDropsAll(s, Cutoff(now, seconds));
  }

  /** Filtering a one-longer prefix filters one more sample. */
  lemma NewerThanExtend(s: seq<MetricSample>, i: int, cutoff: Time)
    requires 0 <= i < |s|
    ensures NewerThan(s[..i + 1], cutoff)
            == NewerThan(s[..i], cutoff) + (if s[i].timestamp > cutoff then [s[i]] else [])
  {
    assert s[..i + 1][..i] == s[..i];
  }

  /** Index arithmetic modulo `c` for an index below 2 * c. */
  function Wrap(x: int, c: int): int
  {
    if x < c then x else x - c
  }

  lemma ModIsWrap(x: int, c: int)
    requires 0 < c && 0 <= x < 2 * c
    ensures x % c == Wrap(x, c)
  {
    if x < c {
      assert x == 0 * c + x;
    } else {
      assert x == 1 * c + (x - c);
    }
  }

  /** The slot of the oldest of `size` samples written behind cursor `head`
      in a ring of `c` slots. */
  function Oldest(c: int, head: int, size: int): int
  {
    Wrap(head - size + c, c)
  }

  /** The slot of the `i`-th oldest of them. */
  function SlotOf(c: int, head: int, size: int, i: int): int
  {
    Wrap(Oldest(c, head, size) + i, c)
  }

  /** The ring `slots`, with write cursor `head`, holds `window` oldest first:
      the `i`-th oldest sample sits, non-nil, at SlotOf(.., i). */
  ghost predicate Laid(slots: seq<Option<MetricSample>>, head: int, window: seq<MetricSample>)
  {
    && 0 <= head < |slots|
    && |window| <= |slots|
    && forall i {:trigger SlotOf(|slots|, head, |window|, i)} :: 0 <= i < |window| ==>
         0 <= SlotOf(|slots|, head, |window|, i) < |slots|
         && slots[SlotOf(|slots|, head, |window|, i)] == Some(window[i])
  }

  /** Writing at the cursor and advancing it keeps the ring laid out: the new
      sample becomes the newest and, in a full ring, the slot written is the
      one that held the oldest sample, which is the only one dropped. */
  lemma LaidAfterWrite(slots: seq<Option<MetricSample>>, head: int, window: seq<MetricSample>, x: MetricSample)
    requires Laid(slots, head, window)
    ensures |window| == |slots| ==> Oldest(|slots|, head, |window|) == head
    ensures Laid(slots[head := Some(x)], Wrap(head + 1, |slots|),
                 if |window| < |slots| then window + [x] else window[1..] + [x])
  {
    var c, n := |slots|, |window|;
    var slots', head' := slots[head := Some(x)], Wrap(head + 1, c);
    var window' := if n < c then window + [x] else window[1..] + [x];
    if n < c {
      assert Oldest(c, head', n + 1) == Oldest(c, head, n);
    } else {
      assert Oldest(c, head, n) == head && Oldest(c, head', n) == head';
    }
    forall i | 0 <= i < |window'|
      ensures 0 <= SlotOf(c, head', |window'|, i) < c
      ensures slots'[SlotOf(c, head', |window'|, i)] == Some(window'[i])
    {
      if n < c && i < n {
        assert SlotOf(c, head', |window'|, i) == SlotOf(c, head, n, i) != head;
      } else if n == c && i < c - 1 {
        assert SlotOf(c, head', |window'|, i) == SlotOf(c, head, n, i + 1) != head;
      }
    }
  }

  class RingBuffer {
    const capacity: int
    const samples: array<Option<MetricSample>>
    var head: int
    var size: int

    /** Every sample ever passed to Add, oldest first. */
    ghost var Added: seq<MetricSample>

    /** The logical contents: the last `capacity` samples added, oldest first. */
    ghost function Contents(): seq<MetricSample>
      reads this
    {
      Recent(Added, if capacity < 0 then 0 else capacity)
    }

    /** Where the oldest stored sample sits. */
    function Start(): int
      reads this
    {
      Oldest(capacity, head, size)
    }

    ghost predicate Valid()
      reads this, samples
    {
      && 0 < capacity == samples.Length
      && size == |Contents()|
      && Laid(samples[..], head, Contents())
    }

    /** NewRingBuffer. */
    constructor (capacity: int)
      requires capacity > 0
      ensures Valid() && fresh(samples)
      ensures this.capacity == capacity && head == 0 && size == 0
      ensures Added == [] && Contents() == []
      ensures forall j :: 0 <= j < capacity ==> samples[j] == None
    {
      this.capacity := capacity;
      samples := new Option<MetricSample>[capacity](_ => None);
      head := 0;
      size := 0;
      Added := [];
    }

    method Add(sample: MetricSample)
      requires Valid()
      modifies this, samples
      ensures Valid()
      ensures Added == old(Added) + [sample]
      ensures head == if old(head) + 1 == capacity then 0 else old(head) + 1
      ensures size == if old(size) < capacity then old(size) + 1 else capacity
      ensures samples[old(head)] == Some(sample)
      ensures forall j :: 0 <= j < capacity && j != old(head) ==> samples[j] == old(samples[j])
      ensures old(size) == capacity ==> old(head) == old(Start())
      ensures Contents() == if old(size) < capacity then old(Contents()) + [sample]
                            else old(Contents())[1..] + [sample]
    {
      ghost var slots, window, oldHead := samples[..], Contents(), head;
      ghost var next := if size < capacity then window + [sample] else window[1..] + [sample];
      LaidAfterWrite(slots, head, window, sample);
      RecentAfterAppend(Added, sample, capacity);
      samples[head] := Some(sample);
      ModIsWrap(head + 1, capacity);
      head := (head + 1) % capacity;
      if size < capacity {
        size := size + 1;
      }
      Added := Added + [sample];
      assert samples[..] == slots[oldHead := Some(sample)];
      assert head == Wrap(oldHead + 1, |slots|);
      assert Contents() == next;
      assert Laid(samples[..], head, Contents());
    }

    /** The `i`-th oldest stored sample, read where the source reads it. */
    lemma SlotHolds(i: int)
      requires Valid() && 0 <= i < size
      ensures (Start() + i) % capacity == SlotOf(capacity, head, size, i)
      ensures samples[(Start() + i) % capacity] == Some(Contents()[i])
    {
      ModIsWrap(Start() + i, capacity);
    }

    method GetLatest() returns (latest: Option<MetricSample>)
      requires Valid()
      ensures latest.None? <==> Added == []
      ensures latest.Some? ==> latest.value == Added[|Added| - 1]
    {
      if size == 0 {
        return None;
      }
      ModIsWrap(head - 1 + capacity, capacity);
      var index := (head - 1 + capacity) % capacity;
      SlotHolds(size - 1);
      latest := samples[index];
    }

    method GetHistory(seconds: int, now: Time) returns (history: seq<MetricSample>)
      requires Valid()
      ensures history == NewerThan(Contents(), Cutoff(now, seconds))
    {
      if size == 0 {
        return [];
      }
      var cutoff := Cutoff(now, seconds);
      history := [];
      ModIsWrap(head - size + capacity, capacity);
      var start := (head - size + capacity) % capacity;
      var i := 0;
      while i < size
        invariant 0 <= i <= size
        invariant history == NewerThan(Contents()[..i], cutoff)
      {
        var index := (start + i) % capacity;
        SlotHolds(i);
        var sample := samples[index];
        NewerThanExtend(Contents(), i, cutoff);
        if sample.Some? && sample.value.timestamp > cutoff {
          history := history + [sample.value];
        }
        i := i + 1;
      }
      assert Contents()[..size] == Contents();
    }

    method GetAll() returns (all: seq<MetricSample>)
      requires Valid()
      ensures all == Contents()
    {
      if size == 0 {
        return [];
      }
      all := [];
      ModIsWrap(head - size + capacity, capacity);
      var start := (head - size + capacity) % capacity;
      var i := 0;
      while i < size
        invariant 0 <= i <= size
        invariant all == Contents()[..i]
      {
        var index := (start + i) % capacity;
        SlotHolds(i);
        if samples[index] != None {
          all := all + [samples[index].value];
        }
        i := i + 1;
      }
    }

    method Size() returns (n: int)
      requires Valid()
      ensures n == |Contents()|
      ensures n == if |Added| < capacity then |Added| else capacity
    {
      n := size;
    }
  }

  /** The reads leave the store as it was: asked twice with no Add in
      between, each read gives the same answer both times. */
  method RepeatedReadsAgree(store: RingBuffer, seconds: int, now: Time)
    returns (latest1: Option<MetricSample>, latest2: Option<MetricSample>,
             history1: seq<MetricSample>, history2: seq<MetricSample>,
             all1: seq<MetricSample>, all2: seq<MetricSample>,
             size1: int, size2: int)
    requires store.Valid()
    ensures latest1 == latest2 && history1 == history2 && all1 == all2 && size1 == size2
    ensures size1 == |all1|
  {
    latest1 := store.GetLatest();
    history1 := store.GetHistory(seconds, now);
    all1 := store.GetAll();
    size1 := store.Size();
    latest2 := store.GetLatest();
    history2 := store.GetHistory(seconds, now);
    all2 := store.GetAll();
    size2 := store.Size();
  }

  /** Samples taken 10, 5 and 1 seconds before the query: a six-second window
      returns the last two, oldest first, and a zero-second window none. */
  lemma WindowExample(now: Time, a: MetricSample, b: MetricSample, c: MetricSample)
    requires a.timestamp == now - 10 * NanosPerSecond
    requires b.timestamp == now - 5 * NanosPerSecond
    requires c.timestamp == now - 1 * NanosPerSecond
    ensures NewerThan([a, b, c], Cutoff(now, 6)) == [b, c]
    ensures NewerThan([a, b, c], Cutoff(now, 0)) == []
  {
    CutoffOfOrdinaryWindow(now, 6);
    CutoffOfOrdinaryWindow(now, 0);
    var s := [a, b, c];
    assert s[..0] == [] && s[..3] == s;
    forall cutoff | cutoff == Cutoff(now, 6) || cutoff == Cutoff(now, 0)
      ensures NewerThan(s, cutoff) == (if b.timestamp > cutoff then [b, c] else [])
    {
      NewerThanExtend(s, 0, cutoff);
      NewerThanExtend(s, 1, cutoff);
      NewerThanExtend(s, 2, cutoff);
    }
  }

  /** Appending to the sequence of everything added appends to the logical
      contents and, once they are `n` long, drops the single oldest one. */
  lemma {:induction false} RecentAfterAppend<T>(s: seq<T>, x: T, n: nat)
    requires n > 0
    ensures Recent(s + [x], n) == if |s| < n then s + [x] else Recent(s, n)[1..] + [x]
  {
    if |s| >= n {
      assert (s + [x])[|s| + 1 - n..] == s[|s| - n..][1..] + [x];
    }
  }
}
