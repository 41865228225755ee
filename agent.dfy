/** The sampling loop of the agent (collectMetrics in cmd/agent/main.go): one
    immediate collection, then one per tick until the context is cancelled,
    every successful sample added to the store and every failure skipped.
    The ticker and the context are abstracted as a finite sequence of events,
    in the order the loop's select statement takes them. */
module Agent {
  import opened Wrappers
  import opened Collector
  import opened Storage

  /** What the loop's select statement can receive: a tick, on which the
      system collector observes `readings`, or the context's cancellation. */
  datatype Event = Tick(readings: Readings) | Cancel

  ghost predicate NoCancel(events: seq<Event>)
  {
    forall j :: 0 <= j < |events| ==> events[j].Tick?
  }

  /** The readings of the ticks that arrive before the first cancellation. */
  function TicksBeforeCancel(events: seq<Event>): (r: seq<Readings>)
    ensures |r| <= |events|
  {
    if events == [] then []
    else match events[0]
      case Cancel => []
      case Tick(readings) => [readings] + TicksBeforeCancel(events[1..])
  }

  /** What one collection attempt adds to the store: its sample, or nothing
      when the collector fails. */
  function Contribution(readings: Readings): (r: seq<MetricSample>)
    ensures |r| <= 1
  {
    match Collect(readings)
    case Ok(sample) => [sample]
    case Err(_) => []
  }

  /** The samples that the collection attempts `attempts` store, in order. */
  function Stored(attempts: seq<Readings>): (r: seq<MetricSample>)
    ensures |r| <= |attempts|
  {
    if attempts == [] then [] else Contribution(attempts[0]) + Stored(attempts[1..])
  }

  /** Attempts made one after another store one after another. */
  lemma {:induction false} StoredAppend(a: seq<Readings>, b: seq<Readings>)
    ensures Stored(a + b) == Stored(a) + Stored(b)
  {
    if a == [] {
      assert a + b == b;
    } else {
      StoredAppend(a[1..], b);
      assert (a + b)[1..] == a[1..] + b;
      ConcatAssoc(Contribution(a[0]), Stored(a[1..]), Stored(b));
    }
  }

  /** A failed attempt adds nothing and does not end the loop: the attempts
      after it store what they would have stored anyway. */
  lemma FailedAttemptIsSkipped(before: seq<Readings>, failed: Readings, after: seq<Readings>)
    requires Collect(failed).Err?
    ensures Stored(before + [failed] + after) == Stored(before) + Stored(after)
  {
    StoredAppend(before + [failed], after);
    StoredAppend(before, [failed]);
  }

  /** A successful attempt adds exactly its own sample, once, in its place. */
  lemma SuccessfulAttemptIsStored(before: seq<Readings>, ok: Readings, after: seq<Readings>)
    requires Collect(ok).Ok?
    ensures Stored(before + [ok] + after) == Stored(before) + [Collect(ok).value] + Stored(after)
  {
    StoredAppend(before + [ok], after);
    StoredAppend(before, [ok]);
  }

  /** Everything stored comes from a successful attempt, and every successful
      attempt's sample is stored. */
  lemma {:induction false} StoredMembers(attempts: seq<Readings>)
    ensures forall x :: x in Stored(attempts) ==>
              exists j :: 0 <= j < |attempts| && Collect(attempts[j]) == Ok(x)
    ensures forall j :: 0 <= j < |attempts| && Collect(attempts[j]).Ok? ==>
              Collect(attempts[j]).value in Stored(attempts)
  {
    if attempts != [] {
      StoredMembers(attempts[1..]);
      forall x | x in Stored(attempts)
        ensures exists j :: 0 <= j < |attempts| && Collect(attempts[j]) == Ok(x)
      {
        if x !in Stored(attempts[1..]) {
          assert Collect(attempts[0]) == Ok(x);
        } else {
          var j :| 0 <= j < |attempts[1..]| && Collect(attempts[1..][j]) == Ok(x);
          assert Collect(attempts[j + 1]) == Ok(x);
        }
      }
      forall j | 0 <= j < |attempts| && Collect(attempts[j]).Ok?
        ensures Collect(attempts[j]).value in Stored(attempts)
      {
        if j > 0 {
          assert attempts[j] == attempts[1..][j - 1];
        }
      }
    }
  }

  /** Without a cancellation every tick is attempted, in order. */
  lemma {:induction false} EveryTickAttempted(events: seq<Event>)
    requires NoCancel(events)
    ensures |TicksBeforeCancel(events)| == |events|
    ensures forall j :: 0 <= j < |events| ==> TicksBeforeCancel(events)[j] == events[j].readings
  {
    if events != [] {
      EveryTickAttempted(events[1..]);
    }
  }

  /** Ticks before the first cancellation extend one by one. */
  lemma {:induction false} TicksAppend(a: seq<Event>, b: seq<Event>)
    requires NoCancel(a)
    ensures TicksBeforeCancel(a + b) == TicksBeforeCancel(a) + TicksBeforeCancel(b)
  {
    if a == [] {
      assert a + b == b;
    } else {
      TicksAppend(a[1..], b);
      assert (a + b)[1..] == a[1..] + b;
      ConcatAssoc([a[0].readings], TicksBeforeCancel(a[1..]), TicksBeforeCancel(b));
    }
  }

  /** Nothing after a cancellation is attempted. */
  lemma CancelStops(before: seq<Event>, after: seq<Event>)
    requires NoCancel(before)
    ensures TicksBeforeCancel(before + [Cancel] + after) == TicksBeforeCancel(before)
  {
    TicksAppend(before, [Cancel] + after);
    assert before + [Cancel] + after == before + ([Cancel] + after);
  }

  /** One more tick before any cancellation is one more attempt. */
  lemma TickExtends(events: seq<Event>, i: int)
    requires 0 <= i < |events| && NoCancel(events[..i]) && events[i].Tick?
    ensures NoCancel(events[..i + 1])
    ensures TicksBeforeCancel(events[..i + 1]) == TicksBeforeCancel(events[..i]) + [events[i].readings]
  {
    assert events[..i + 1] == events[..i] + [events[i]];
    TicksAppend(events[..i], [events[i]]);
  }

  /** The first cancellation, at `i`, ends the attempts. */
  lemma {:induction false} CancelEnds(events: seq<Event>, i: int)
    requires 0 <= i < |events| && NoCancel(events[..i]) && events[i].Cancel?
    ensures TicksBeforeCancel(events) == TicksBeforeCancel(events[..i])
  {
    if i == 0 {
      assert events[..0] == [];
    } else {
      assert events[..i][1..] == events[1..][..i - 1];
      CancelEnds(events[1..], i - 1);
    }
  }

  /** One collection attempt, as made at startup and on every tick: the
      system collector is called and its sample, if it produced one, is added
      to the store; on an error the store is left as it was. */
  method CollectOnce(store: RingBuffer, readings: Readings)
    requires store.Valid()
    modifies store, store.samples
    ensures store.Valid()
    ensures store.Added == old(store.Added) + Stored([readings])
  {
    var outcome := Collect(readings);
    if outcome.Err? {
      return;
    }
    store.Add(outcome.value);
  }

  /** collectMetrics, up to the end of `events`: one collection attempt before
      any event, then one attempt on each tick; on the first cancellation the
      loop returns. */
  method CollectMetrics(store: RingBuffer, initial: Readings, events: seq<Event>)
    requires store.Valid()
    modifies store, store.samples
    ensures store.Valid()
    ensures store.Added == old(store.Added) + Stored([initial] + TicksBeforeCancel(events))
    ensures old(store.Added) == [] ==>
              store.Contents() == Recent(Stored([initial] + TicksBeforeCancel(events)), store.capacity)
  {
    CollectOnce(store, initial);
    ghost var base, ticks := store.Added, [];
    assert events[..0] == [];
    var i := 0;
    while i < |events|
      invariant 0 <= i <= |events| && NoCancel(events[..i])
      invariant ticks == TicksBeforeCancel(events[..i])
      invariant store.Valid()
      invariant store.Added == base + Stored(ticks)
    {
      match events[i]
      case Cancel =>
        CancelEnds(events, i);
        LoopOutcome(old(store.Added), initial, ticks);
        return;
      case Tick(readings) =>
        TickExtends(events, i);
        StoredAppend(ticks, [readings]);
        ConcatAssoc(base, Stored(ticks), Stored([readings]));
        ticks := ticks + [readings];
        CollectOnce(store, readings);
        i := i + 1;
    }
    assert events[..i] == events;
    LoopOutcome(old(store.Added), initial, ticks);
  }

  /** Associativity of concatenation, stated once so that the proofs above
      can name the regrouping they need instead of searching for it. */
  lemma ConcatAssoc<T>(a: seq<T>, b: seq<T>, c: seq<T>)
    ensures a + b + c == a + (b + c)
  {
  }

  /** What the store has gained once the loop stops after the attempts
      `initial` and then `ticks`. */
  lemma LoopOutcome(prior: seq<MetricSample>, initial: Readings, ticks: seq<Readings>)
    ensures prior + Stored([initial]) + Stored(ticks) == prior + Stored([initial] + ticks)
    ensures prior == [] ==> prior + Stored([initial] + ticks) == Stored([initial] + ticks)
  {
    StoredAppend([initial], ticks);
    ConcatAssoc(prior, Stored([initial]), Stored(ticks));
  }
}
