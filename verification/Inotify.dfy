/** The inotify event queue and the buffer of events that read() returns
    (inotify/README.org, sections 19.4 and 19.5, Listing 19-1).

    The kernel appends events to a bounded queue, merging an event with an
    equal one at the tail; read() packs as many whole events as fit into a
    buffer of variable-length records, over which the application then walks. */
module Inotify {
  import opened Basics
  import Words

  const WORD := 0x1_0000_0000
  const NAME_MAX := 255
  const HEADER := 16            // wd, mask, cookie and len, four bytes each
  const BUF_LEN := 10 * (HEADER + NAME_MAX + 1)
  const IN_Q_OVERFLOW := 0x4000

  datatype Event = Event(wd: int, mask: nat, cookie: nat, name: seq<Byte>)

  const OVERFLOW := Event(-1, IN_Q_OVERFLOW, 0, [])

  /** An event that fits the fields of struct inotify_event. */
  predicate Representable(e: Event) {
    && -WORD / 2 <= e.wd < WORD / 2 && e.mask < WORD && e.cookie < WORD
    && |e.name| <= NAME_MAX
    && forall k :: 0 <= k < |e.name| ==> e.name[k] != 0
  }

  // ----- The queue -----

  /** Queue an event unless it equals the one at the tail. */
  function Append(queue: seq<Event>, e: Event): seq<Event> {
    if queue != [] && queue[|queue| - 1] == e then queue else queue + [e]
  }

  /** With the queue at its limit an overflow event takes the place of any
      event that would have lengthened it. */
  function Enqueue(queue: seq<Event>, max: nat, e: Event): seq<Event> {
    if |Append(queue, e)| <= max || Append(queue, e) == queue then Append(queue, e)
    else Append(queue, OVERFLOW)
  }

  /** The least multiple of `unit` that is not below `n`. */
  function RoundUp(n: nat, unit: nat): nat
    requires unit > 0
  {
    if n == 0 then 0 else if n <= unit then unit else unit + RoundUp(n - unit, unit)
  }

  /** Bytes set aside for the name: with its terminating null, rounded up. */
  function NameField(e: Event, unit: nat): nat
    requires unit > 0
  {
    if e.name == [] then 0 else RoundUp(|e.name| + 1, unit)
  }

  function Size(e: Event, unit: nat): nat
    requires unit > 0
  {
    HEADER + NameField(e, unit)
  }

  function TotalSize(events: seq<Event>, unit: nat): nat
    requires unit > 0
  {
    if events == [] then 0 else TotalSize(events[..|events| - 1], unit) + Size(events[|events| - 1], unit)
  }

  /** How many events from the head of the queue fit into `room` bytes. */
  function Fit(queue: seq<Event>, unit: nat, room: nat): nat
    requires unit > 0
  {
    if queue == [] || Size(queue[0], unit) > room then 0
    else 1 + Fit(queue[1..], unit, room - Size(queue[0], unit))
  }

  datatype Call = Generate(event: Event) | Read(room: nat)

  /** The queue, with everything ever generated and everything delivered. */
  datatype State = State(queue: seq<Event>, generated: seq<Event>, delivered: seq<Event>) {
    function Kept(): seq<Event> { delivered + queue }
  }

  /** A read with an empty queue (EAGAIN) or with room for not even one event
      (EINVAL) delivers nothing. */
  function Step(s: State, max: nat, unit: nat, call: Call): State
    requires unit > 0
  {
    match call
    case Generate(e) => State(Enqueue(s.queue, max, e), s.generated + [e], s.delivered)
    case Read(room) =>
      var n := Fit(s.queue, unit, room);
      FitWithin(s.queue, unit, room);
      State(s.queue[n..], s.generated, s.delivered + s.queue[..n])
  }

  function Run(max: nat, unit: nat, calls: seq<Call>): State
    requires unit > 0
  {
    if calls == [] then State([], [], [])
    else Step(Run(max, unit, calls[..|calls| - 1]), max, unit, calls[|calls| - 1])
  }

  // ----- What read() takes from the queue -----

  lemma {:induction false} FitWithin(queue: seq<Event>, unit: nat, room: nat)
    requires unit > 0
    ensures Fit(queue, unit, room) <= |queue|
  {
    if queue != [] && Size(queue[0], unit) <= room {
      FitWithin(queue[1..], unit, room - Size(queue[0], unit));
    }
  }

  lemma {:induction false} TotalSizeHead(events: seq<Event>, unit: nat)
    requires unit > 0 && events != []
    ensures TotalSize(events, unit) == Size(events[0], unit) + TotalSize(events[1..], unit)
  {
    if |events| > 1 {
      TotalSizeHead(events[..|events| - 1], unit);
      assert events[1..][..|events| - 2] == events[..|events| - 1][1..];
    } else {
      assert TotalSize(events[..0], unit) == 0;
    }
  }

  /** read() returns as many whole events as there are and as will fit. */
  lemma {:induction false} FitIsLargest(queue: seq<Event>, unit: nat, room: nat)
    requires unit > 0
    ensures Fit(queue, unit, room) <= |queue|
    ensures TotalSize(queue[..Fit(queue, unit, room)], unit) <= room
    ensures Fit(queue, unit, room) < |queue| ==> TotalSize(queue[..Fit(queue, unit, room) + 1], unit) > room
  {
    FitWithin(queue, unit, room);
    if queue != [] {
      var n := Fit(queue, unit, room);
      if n == 0 {
        assert queue[..1][..0] == [] && queue[..1] == [queue[0]];
        TotalSizeHead(queue[..1], unit);
      } else {
        FitIsLargest(queue[1..], unit, room - Size(queue[0], unit));
        assert queue[..n][1..] == queue[1..][..n - 1];
        TotalSizeHead(queue[..n], unit);
        if n < |queue| {
          assert queue[..n + 1][1..] == queue[1..][..n];
          TotalSizeHead(queue[..n + 1], unit);
        }
      }
    }
  }

  lemma {:induction false} RoundUpBounds(n: nat, unit: nat, limit: nat)
    requires unit > 0
    ensures n <= RoundUp(n, unit) < n + unit
    ensures n <= limit * unit ==> RoundUp(n, unit) <= limit * unit
  {
    if n > unit {
      RoundUpBounds(n - unit, unit, if limit == 0 then 0 else limit - 1);
      assert limit > 0 ==> limit * unit == unit + (limit - 1) * unit;
    } else if n > 0 && limit > 0 {
      assert limit * unit == unit + (limit - 1) * unit;
    }
  }

  /** With a padding unit that divides NAME_MAX + 1, no event needs more than
      the header and NAME_MAX + 1 bytes. */
  lemma SizeBound(e: Event, unit: nat, times: nat)
    requires unit > 0 && Representable(e) && times * unit == NAME_MAX + 1
    ensures Size(e, unit) <= HEADER + NAME_MAX + 1
  {
    if e.name != [] {
      RoundUpBounds(|e.name| + 1, unit, times);
    }
  }

  lemma {:induction false} FitAtLeast(queue: seq<Event>, unit: nat, room: nat, largest: nat, k: nat)
    requires unit > 0
    requires forall e :: e in queue ==> Size(e, unit) <= largest
    requires k * largest <= room
    ensures Fit(queue, unit, room) >= if |queue| < k then |queue| else k
    decreases k
  {
    if k > 0 && queue != [] {
      var size := Size(queue[0], unit);
      assert queue[0] in queue;
      assert k * largest == largest + (k - 1) * largest;
      FitAtLeast(queue[1..], unit, room - size, largest, k - 1);
    }
  }

  /** A read into the buffer of Listing 19-1 returns at least ten events, or
      all there are. */
  lemma ReadReturnsTen(queue: seq<Event>, unit: nat, times: nat)
    requires unit > 0 && times * unit == NAME_MAX + 1
    requires forall e :: e in queue ==> Representable(e)
    ensures Fit(queue, unit, BUF_LEN) >= if |queue| < 10 then |queue| else 10
  {
    forall e | e in queue ensures Size(e, unit) <= HEADER + NAME_MAX + 1 {
      SizeBound(e, unit, times);
    }
    FitAtLeast(queue, unit, BUF_LEN, HEADER + NAME_MAX + 1, 10);
  }

  // ----- Nothing is lost silently -----

  /** The sequence with adjacent repeats removed. */
  function Dedup(s: seq<Event>): seq<Event> {
    if s == [] then [] else Append(Dedup(s[..|s| - 1]), s[|s| - 1])
  }

  lemma DedupEnd(s: seq<Event>)
    ensures s == [] <==> Dedup(s) == []
    ensures s != [] ==> Dedup(s)[|Dedup(s)| - 1] == s[|s| - 1]
  {}

  ghost predicate Marked(s: State) { OVERFLOW in s.Kept() }

  ghost predicate Lossless(s: State) { Dedup(s.Kept()) == Dedup(s.generated) }

  lemma KeptAfterRead(s: State, max: nat, unit: nat, room: nat)
    requires unit > 0
    ensures Step(s, max, unit, Read(room)).Kept() == s.Kept()
  {
    FitWithin(s.queue, unit, room);
  }

  lemma KeptAfterGenerate(s: State, max: nat, unit: nat, e: Event)
    requires unit > 0
    ensures var s' := Step(s, max, unit, Generate(e));
            || s'.Kept() == s.Kept() + [OVERFLOW]
            || (s'.Kept() == s.Kept() && s.queue != [] && s.queue[|s.queue| - 1] in {e, OVERFLOW})
            || s'.Kept() == s.Kept() + [e]
  {}

  /** For every interleaving of events and reads: as long as no overflow event
      was queued, what has been or will be read is what was generated, up to
      immediate repetition.  Every loss is announced. */
  lemma {:induction false} LossesAreAnnounced(max: nat, unit: nat, calls: seq<Call>)
    requires unit > 0
    ensures Marked(Run(max, unit, calls)) || Lossless(Run(max, unit, calls))
  {
    if calls != [] {
      var before, call := calls[..|calls| - 1], calls[|calls| - 1];
      var s, s' := Run(max, unit, before), Run(max, unit, calls);
      LossesAreAnnounced(max, unit, before);
      match call
      case Read(room) => KeptAfterRead(s, max, unit, room);
      case Generate(e) =>
        KeptAfterGenerate(s, max, unit, e);
        if !Marked(s') {
          KeptUnmarked(s, s', e);
        }
    }
  }

  lemma KeptUnmarked(s: State, s': State, e: Event)
    requires Marked(s) || Lossless(s)
    requires !Marked(s') && s'.generated == s.generated + [e]
    requires || s'.Kept() == s.Kept() + [OVERFLOW]
             || (s'.Kept() == s.Kept() && s.queue != [] && s.queue[|s.queue| - 1] in {e, OVERFLOW})
             || s'.Kept() == s.Kept() + [e]
    ensures Lossless(s')
  {}

  /** No event that the kernel is told of looks like an overflow event. */
  ghost predicate Genuine(calls: seq<Call>) {
    forall k :: 0 <= k < |calls| && calls[k].Generate? ==> calls[k].event != OVERFLOW
  }

  /** The call brings an event for which there is no place: the queue is at its
      limit and its last event is another one. */
  predicate Discards(s: State, max: nat, call: Call) {
    && call.Generate? && |s.queue| >= max
    && (s.queue == [] || s.queue[|s.queue| - 1] != call.event)
  }

  ghost predicate SomeDiscarded(max: nat, unit: nat, calls: seq<Call>)
    requires unit > 0
  {
    calls != [] &&
    var before := calls[..|calls| - 1];
    SomeDiscarded(max, unit, before) || Discards(Run(max, unit, before), max, calls[|calls| - 1])
  }

  lemma MarkedAfter(s: State, max: nat, unit: nat, call: Call)
    requires unit > 0 && (call.Generate? ==> call.event != OVERFLOW)
    ensures Marked(Step(s, max, unit, call)) <==> Marked(s) || Discards(s, max, call)
  {
    if call.Read? {
      KeptAfterRead(s, max, unit, call.room);
    }
  }

  /** An overflow event is met, now or later, if and only if some event of the
      run found no place in the queue. */
  lemma {:induction false} MarkedIffDiscarded(max: nat, unit: nat, calls: seq<Call>)
    requires unit > 0 && Genuine(calls)
    ensures Marked(Run(max, unit, calls)) <==> SomeDiscarded(max, unit, calls)
  {
    if calls != [] {
      var before := calls[..|calls| - 1];
      MarkedIffDiscarded(max, unit, before);
      MarkedAfter(Run(max, unit, before), max, unit, calls[|calls| - 1]);
    }
  }

  /** The events generated, but for those that found no place. */
  ghost function Accepted(max: nat, unit: nat, calls: seq<Call>): seq<Event>
    requires unit > 0
  {
    if calls == [] then []
    else
      var before, call := calls[..|calls| - 1], calls[|calls| - 1];
      var rest := Accepted(max, unit, before);
      if call.Read? || Discards(Run(max, unit, before), max, call) then rest else rest + [call.event]
  }

  /** The same events, overflow events and immediate repetition aside. */
  ghost predicate Accounted(kept: seq<Event>, accepted: seq<Event>) { Dedup(Unmarked(kept)) == Dedup(accepted) }

  lemma DedupAppend(s: seq<Event>, e: Event)
    ensures Dedup(s + [e]) == Append(Dedup(s), e)
  {
    assert (s + [e])[..|s|] == s;
  }

  lemma AcceptedMerged(kept: seq<Event>, accepted: seq<Event>, e: Event)
    requires kept != [] && kept[|kept| - 1] == e != OVERFLOW && Dedup(Unmarked(kept)) == Dedup(accepted)
    ensures Dedup(Unmarked(kept)) == Dedup(accepted + [e])
  {
    DedupEnd(Unmarked(kept));
    DedupAppend(accepted, e);
  }

  lemma AcceptedQueued(kept: seq<Event>, accepted: seq<Event>, e: Event)
    requires e != OVERFLOW && Dedup(Unmarked(kept)) == Dedup(accepted)
    ensures Dedup(Unmarked(kept + [e])) == Dedup(accepted + [e])
  {
    UnmarkedAppend(kept, e);
    DedupAppend(Unmarked(kept), e);
    DedupAppend(accepted, e);
  }

  lemma KeptUnlessDiscarded(s: State, max: nat, unit: nat, e: Event)
    requires unit > 0 && !Discards(s, max, Generate(e))
    ensures var kept, kept' := s.Kept(), Step(s, max, unit, Generate(e)).Kept();
            kept' == kept + [e] || (kept' == kept != [] && kept[|kept| - 1] == e)
  {
    assert s.delivered + (s.queue + [e]) == s.Kept() + [e];
  }

  lemma AcceptedStep(kept: seq<Event>, kept': seq<Event>, e: Event, accepted: seq<Event>)
    requires e != OVERFLOW && Accounted(kept, accepted)
    requires kept' == kept + [e] || (kept' == kept != [] && kept[|kept| - 1] == e)
    ensures Accounted(kept', accepted + [e])
  {
    if kept' == kept + [e] {
      AcceptedQueued(kept, accepted, e);
    } else {
      AcceptedMerged(kept, accepted, e);
    }
  }

  lemma DiscardedStep(s: State, max: nat, unit: nat, e: Event)
    requires unit > 0 && Discards(s, max, Generate(e))
    ensures Unmarked(Step(s, max, unit, Generate(e)).Kept()) == Unmarked(s.Kept())
  {
    assert s.delivered + (s.queue + [OVERFLOW]) == s.Kept() + [OVERFLOW];
    UnmarkedAppend(s.Kept(), OVERFLOW);
  }

  /** Overflow or not, what is kept is accounted for: markers aside it is what was
      generated less what found no place, up to immediate repetition. */
  lemma {:induction false} KeptIsAccepted(max: nat, unit: nat, calls: seq<Call>)
    requires unit > 0 && Genuine(calls)
    ensures Accounted(Run(max, unit, calls).Kept(), Accepted(max, unit, calls))
  {
    if calls != [] {
      var before, call := calls[..|calls| - 1], calls[|calls| - 1];
      var s := Run(max, unit, before);
      KeptIsAccepted(max, unit, before);
      if call.Read? {
        KeptAfterRead(s, max, unit, call.room);
      } else if Discards(s, max, call) {
        DiscardedStep(s, max, unit, call.event);
      } else {
        KeptUnlessDiscarded(s, max, unit, call.event);
        AcceptedStep(s.Kept(), Run(max, unit, calls).Kept(), call.event, Accepted(max, unit, before));
      }
    }
  }

  lemma RunOne(max: nat, unit: nat, calls: seq<Call>, k: nat)
    requires unit > 0 && k < |calls|
    ensures Run(max, unit, calls[..k + 1]) == Step(Run(max, unit, calls[..k]), max, unit, calls[k])
  {
    assert calls[..k + 1][..k] == calls[..k];
  }

  /** Event `b` finds no place behind `a`, and comes again when there is. */
  ghost predicate Returns(unit: nat, calls: seq<Call>, a: Event, b: Event, room: nat)
    requires unit > 0
  {
    && calls == [Generate(a), Generate(b), Read(room), Generate(b)]
    && a != b && a != OVERFLOW && b != OVERFLOW && room >= Size(a, unit) + HEADER
  }

  lemma ReadsBoth(unit: nat, a: Event, room: nat)
    requires unit > 0 && room >= Size(a, unit) + HEADER
    ensures Fit([a, OVERFLOW], unit, room) == 2
  {
    var queue := [a, OVERFLOW];
    assert queue[1..] == [OVERFLOW] && queue[1..][1..] == [];
    assert Fit(queue[1..], unit, room - Size(a, unit)) == 1;
  }

  lemma ReturnsStart(unit: nat, calls: seq<Call>, a: Event, b: Event, room: nat)
    requires unit > 0 && Returns(unit, calls, a, b, room)
    ensures Run(1, unit, calls[..2]) == State([a, OVERFLOW], [a, b], [])
  {
    assert Run(1, unit, calls[..1]) == State([a], [a], []) by { RunOne(1, unit, calls, 0); }
    RunOne(1, unit, calls, 1);
  }

  lemma ReturnsRead(unit: nat, calls: seq<Call>, a: Event, b: Event, room: nat)
    requires unit > 0 && Returns(unit, calls, a, b, room)
    ensures Run(1, unit, calls[..3]) == State([], [a, b], [a, OVERFLOW])
  {
    ReturnsStart(unit, calls, a, b, room);
    ReadsBoth(unit, a, room);
    RunOne(1, unit, calls, 2);
  }

  lemma ReturnsRun(unit: nat, calls: seq<Call>, a: Event, b: Event, room: nat)
    requires unit > 0 && Returns(unit, calls, a, b, room)
    ensures Run(1, unit, calls) == State([b], [a, b, b], [a, OVERFLOW])
  {
    ReturnsRead(unit, calls, a, b, room);
    RunOne(1, unit, calls, 3);
    assert calls[..4] == calls;
  }

  /** A marked run can still be complete up to repetition: all that the overflow
      event tells for certain is that an event found no place. */
  lemma MarkedYetComplete(unit: nat, calls: seq<Call>, a: Event, b: Event, room: nat)
    requires unit > 0 && Returns(unit, calls, a, b, room)
    ensures var s := Run(1, unit, calls); Marked(s) && Accounted(s.Kept(), s.generated)
  {
    ReturnsRun(unit, calls, a, b, room);
    var s := Run(1, unit, calls);
    assert s.Kept() == [a] + [OVERFLOW] + [b] && s.generated == [a] + [b] + [b];
    assert s.Kept()[1] == OVERFLOW;
    ReturnsAccounted(a, b);
  }

  lemma ReturnsAccounted(a: Event, b: Event)
    requires a != OVERFLOW && b != OVERFLOW
    ensures Accounted([a] + [OVERFLOW] + [b], [a] + [b] + [b])
  {
    UnmarkedAppend([], a);
    UnmarkedAppend([a], OVERFLOW);
    UnmarkedAppend([a] + [OVERFLOW], b);
    DedupAppend([], a);
    DedupAppend([a], b);
    DedupAppend([a] + [b], b);
    assert [] + [a] == [a];
  }

  ghost predicate Increasing(f: seq<nat>) {
    forall i, j :: 0 <= i < j < |f| ==> f[i] < f[j]
  }

  ghost predicate Picks(a: seq<Event>, b: seq<Event>, f: seq<nat>) {
    && |f| == |a| && Increasing(f)
    && forall i :: 0 <= i < |a| ==> f[i] < |b| && a[i] == b[f[i]]
  }

  ghost predicate Subsequence(a: seq<Event>, b: seq<Event>) {
    exists f: seq<nat> :: Picks(a, b, f)
  }

  function Unmarked(s: seq<Event>): seq<Event> {
    if s == [] then []
    else
      var rest := Unmarked(s[..|s| - 1]);
      if s[|s| - 1] == OVERFLOW then rest else rest + [s[|s| - 1]]
  }

  lemma UnmarkedAppend(s: seq<Event>, e: Event)
    ensures Unmarked(s + [e]) == if e == OVERFLOW then Unmarked(s) else Unmarked(s) + [e]
  {}

  lemma SubsequenceGrows(a: seq<Event>, b: seq<Event>, e: Event)
    requires Subsequence(a, b)
    ensures Subsequence(a, b + [e]) && Subsequence(a + [e], b + [e])
  {
    var f: seq<nat> :| Picks(a, b, f);
    assert Picks(a, b + [e], f);
    assert Picks(a + [e], b + [e], f + [|b|]);
  }

  /** Even with overflow, no event is invented, duplicated or reordered: what is
      kept, overflow events aside, is a subsequence of what was generated. */
  lemma {:induction false} KeptIsSubsequence(max: nat, unit: nat, calls: seq<Call>)
    requires unit > 0
    ensures Subsequence(Unmarked(Run(max, unit, calls).Kept()), Run(max, unit, calls).generated)
  {
    if calls == [] {
      assert Picks([], [], []);
    } else {
      var before, call := calls[..|calls| - 1], calls[|calls| - 1];
      var s := Run(max, unit, before);
      KeptIsSubsequence(max, unit, before);
      match call
      case Read(room) => KeptAfterRead(s, max, unit, room);
      case Generate(e) =>
        KeptAfterGenerate(s, max, unit, e);
        UnmarkedAppend(s.Kept(), e);
        UnmarkedAppend(s.Kept(), OVERFLOW);
        SubsequenceGrows(Unmarked(s.Kept()), s.generated, e);
    }
  }

  lemma {:induction false} UnmarkedPrefix(a: seq<Event>, b: seq<Event>)
    ensures Unmarked(a) <= Unmarked(a + b)
  {
    if b == [] {
      assert a + b == a;
    } else {
      var front := b[..|b| - 1];
      UnmarkedPrefix(a, front);
      assert a + b == (a + front) + [b[|b| - 1]];
      UnmarkedAppend(a + front, b[|b| - 1]);
    }
  }

  /** In particular so is what has been delivered. */
  lemma DeliveredIsSubsequence(max: nat, unit: nat, calls: seq<Call>)
    requires unit > 0
    ensures Subsequence(Unmarked(Run(max, unit, calls).delivered), Run(max, unit, calls).generated)
  {
    KeptIsSubsequence(max, unit, calls);
    var s := Run(max, unit, calls);
    UnmarkedPrefix(s.delivered, s.queue);
    var a := Unmarked(s.delivered);
    var f: seq<nat> :| Picks(Unmarked(s.Kept()), s.generated, f);
    assert Picks(a, s.generated, f[..|a|]);
  }

  /** The queue never holds more than its limit and one overflow event. */
  lemma {:induction false} QueueIsBounded(max: nat, unit: nat, calls: seq<Call>)
    requires unit > 0
    ensures var q := Run(max, unit, calls).queue;
            |q| <= max + 1 && (|q| == max + 1 ==> q[max] == OVERFLOW)
  {
    if calls != [] {
      var before := calls[..|calls| - 1];
      QueueIsBounded(max, unit, before);
      match calls[|calls| - 1]
      case Generate(_) =>
      case Read(room) => FitWithin(Run(max, unit, before).queue, unit, room);
    }
  }

  /** What becomes of a new event, case by case: merged with an equal one at the
      tail, queued, or, at the limit, replaced by an overflow event, which is
      itself merged with one at the tail. */
  lemma EnqueueOutcome(queue: seq<Event>, max: nat, e: Event)
    ensures var last := if queue == [] then [] else [queue[|queue| - 1]];
            var queue' := Enqueue(queue, max, e);
            && (last == [e] ==> queue' == queue)
            && (last != [e] && |queue| < max ==> queue' == queue + [e])
            && (last != [e] && |queue| >= max && last == [OVERFLOW] ==> queue' == queue)
            && (last != [e] && |queue| >= max && last != [OVERFLOW] ==> queue' == queue + [OVERFLOW])
  {}

  ghost predicate NoRepeats(queue: seq<Event>) { forall i :: 0 < i < |queue| ==> queue[i - 1] != queue[i] }

  /** In every run no two events that follow one another in the queue are equal:
      repetition is merged, not kept. */
  lemma {:induction false} QueueHasNoRepeats(max: nat, unit: nat, calls: seq<Call>)
    requires unit > 0
    ensures NoRepeats(Run(max, unit, calls).queue)
  {
    if calls != [] {
      var before := calls[..|calls| - 1];
      QueueHasNoRepeats(max, unit, before);
      match calls[|calls| - 1]
      case Generate(e) => EnqueueOutcome(Run(max, unit, before).queue, max, e);
      case Read(room) => FitWithin(Run(max, unit, before).queue, unit, room);
    }
  }

  /** The size of a name field is the least multiple of the padding unit that
      holds the name and its terminating null; without a name it is 0. */
  lemma NameFieldIsLeast(e: Event, unit: nat, times: nat)
    requires unit > 0
    ensures e.name == [] ==> NameField(e, unit) == 0
    ensures e.name != [] ==>
              && (exists k: nat :: NameField(e, unit) == k * unit) && |e.name| < NameField(e, unit)
              && (|e.name| < times * unit ==> NameField(e, unit) <= times * unit)
  {
    if e.name != [] {
      var k := RoundUpTimes(|e.name| + 1, unit);
      RoundUpBounds(|e.name| + 1, unit, times);
    }
  }

  lemma {:induction false} RoundUpTimes(n: nat, unit: nat) returns (k: nat)
    requires unit > 0
    ensures RoundUp(n, unit) == k * unit
  {
    if n == 0 {
      k := 0;
    } else if n <= unit {
      k := 1;
    } else {
      k := RoundUpTimes(n - unit, unit);
      assert unit + k * unit == (k + 1) * unit;
      k := k + 1;
    }
  }

  // ----- The buffer -----

  /** A four-byte field; a negative number is stored in two's complement. */
  function Field(n: int): seq<Byte> { Words.Encode(n % WORD, 4) }

  function Unsigned(b: seq<Byte>): nat { Words.Decode(b) }

  function Signed(b: seq<Byte>): int {
    if Unsigned(b) < WORD / 2 then Unsigned(b) else Unsigned(b) - WORD
  }

  lemma FieldRoundTrip(n: int)
    requires -WORD / 2 <= n < WORD
    ensures n >= 0 ==> Unsigned(Field(n)) == n
    ensures n < WORD / 2 ==> Signed(Field(n)) == n
  {
    Words.DecodeEncode(n % WORD, 4);
  }

  /** An event with the size of its name field, however it was padded. */
  datatype Record = Record(event: Event, len: nat)

  predicate WellPadded(r: Record) {
    && Representable(r.event) && r.len < WORD
    && (r.event.name != [] ==> |r.event.name| < r.len)
  }

  function Pack(r: Record): seq<Byte>
    requires WellPadded(r)
  {
    Field(r.event.wd) + Field(r.event.mask) + Field(r.event.cookie) + Field(r.len)
    + r.event.name + seq(r.len - |r.event.name|, _ => 0)
  }

  function PackAll(rs: seq<Record>): seq<Byte>
    requires forall r :: r in rs ==> WellPadded(r)
  {
    if rs == [] then [] else PackAll(rs[..|rs| - 1]) + Pack(rs[|rs| - 1])
  }

  function Events(rs: seq<Record>): seq<Event> {
    seq(|rs|, k requires 0 <= k < |rs| => rs[k].event)
  }

  /** The bytes before the first null. */
  function CString(b: seq<Byte>): seq<Byte> {
    if b == [] || b[0] == 0 then [] else [b[0]] + CString(b[1..])
  }

  lemma {:induction false} CStringOfPadded(name: seq<Byte>, padding: nat)
    requires forall k :: 0 <= k < |name| ==> name[k] != 0
    ensures CString(name + seq(padding, _ => 0)) == name
  {
    if name != [] {
      CStringOfPadded(name[1..], padding);
      assert (name + seq(padding, _ => 0))[1..] == name[1..] + seq(padding, _ => 0);
    }
  }

  /** The structure at the start of `b`, as the cast in the loop reads it. */
  function Header(b: seq<Byte>): Record
    requires |b| >= HEADER && |b| >= HEADER + Unsigned(b[12..16])
  {
    var len := Unsigned(b[12..16]);
    Record(Event(Signed(b[0..4]), Unsigned(b[4..8]), Unsigned(b[8..12]), CString(b[16..16 + len])), len)
  }

  lemma FieldsOfPacked(r: Record, rest: seq<Byte>)
    requires WellPadded(r)
    ensures |Pack(r)| == HEADER + r.len
    ensures var b := Pack(r) + rest;
            && b[0..4] == Field(r.event.wd) && b[4..8] == Field(r.event.mask)
            && b[8..12] == Field(r.event.cookie) && b[12..16] == Field(r.len)
            && b[16..16 + r.len] == r.event.name + seq(r.len - |r.event.name|, _ => 0)
  {
    FieldsApart(Field(r.event.wd), Field(r.event.mask), Field(r.event.cookie), Field(r.len),
                r.event.name, seq(r.len - |r.event.name|, _ => 0), rest);
  }

  lemma FieldsApart(f0: seq<Byte>, f1: seq<Byte>, f2: seq<Byte>, f3: seq<Byte>, name: seq<Byte>, padding: seq<Byte>, rest: seq<Byte>)
    requires |f0| == |f1| == |f2| == |f3| == 4
    ensures var b := f0 + f1 + f2 + f3 + name + padding + rest;
            && b[0..4] == f0 && b[4..8] == f1 && b[8..12] == f2 && b[12..16] == f3
            && b[16..16 + |name + padding|] == name + padding
  {
    var tail := name + padding;
    assert f0 + f1 + f2 + f3 + name + padding + rest == f0 + f1 + f2 + f3 + (tail + rest);
  }

  /** A packed record is read back as it was, whatever bytes follow it. */
  lemma HeaderOfPacked(r: Record, rest: seq<Byte>)
    requires WellPadded(r)
    ensures |Pack(r)| == HEADER + r.len
    ensures var b := Pack(r) + rest; Unsigned(b[12..16]) == r.len && Header(b) == r
  {
    FieldsOfPacked(r, rest);
    FieldRoundTrip(r.event.wd);
    FieldRoundTrip(r.event.mask);
    FieldRoundTrip(r.event.cookie);
    FieldRoundTrip(r.len);
    CStringOfPadded(r.event.name, r.len - |r.event.name|);
  }

  lemma {:induction false} PackAllSplit(rs: seq<Record>, k: nat)
    requires k < |rs| && forall r :: r in rs ==> WellPadded(r)
    ensures PackAll(rs[..k + 1]) == PackAll(rs[..k]) + Pack(rs[k])
    ensures PackAll(rs[..k + 1]) <= PackAll(rs)
  {
    assert rs[..k + 1][..k] == rs[..k];
    if k + 1 == |rs| {
      assert rs[..k + 1] == rs;
    } else {
      var front := rs[..|rs| - 1];
      PackAllSplit(front, k);
      assert front[..k + 1] == rs[..k + 1] && front[..k] == rs[..k];
    }
  }

  /** Where the k-th record lies in the buffer, and what is found there. */
  lemma RecordInBuffer(b: seq<Byte>, rs: seq<Record>, k: nat, p: nat)
    requires k < |rs| && forall r :: r in rs ==> WellPadded(r)
    requires b == PackAll(rs) && p == |PackAll(rs[..k])|
    ensures |PackAll(rs[..k + 1])| == p + HEADER + rs[k].len <= |b|
    ensures Unsigned(b[p..][12..16]) == rs[k].len && Header(b[p..]) == rs[k]
  {
    PackAllSplit(rs, k);
    HeaderOfPacked(rs[k], []);
    var q := p + HEADER + rs[k].len;
    assert b[..q] == PackAll(rs[..k + 1]);
    assert b[p..] == Pack(rs[k]) + b[q..];
    HeaderOfPacked(rs[k], b[q..]);
  }

  lemma BufferRemains(rs: seq<Record>, k: nat)
    requires k <= |rs| && forall r :: r in rs ==> WellPadded(r)
    ensures |PackAll(rs[..k])| <= |PackAll(rs)|
    ensures |PackAll(rs[..k])| < |PackAll(rs)| <==> k < |rs|
  {
    if k < |rs| {
      RecordInBuffer(PackAll(rs), rs, k, |PackAll(rs[..k])|);
    } else {
      assert rs[..k] == rs;
    }
  }

  lemma EventsAppend(rs: seq<Record>, k: nat)
    requires k < |rs|
    ensures Events(rs[..k + 1]) == Events(rs[..k]) + [rs[k].event]
  {}

  /** The loop of Listing 19-1.  It meets every packed event once, in order, and
      ends exactly at the end of what was read. */
  method WalkBuffer(buf: array<Byte>, numRead: nat, ghost rs: seq<Record>) returns (events: seq<Event>, end: nat)
    requires numRead <= buf.Length
    requires forall r :: r in rs ==> WellPadded(r)
    requires buf[..numRead] == PackAll(rs)
    ensures events == Events(rs)
    ensures end == numRead
  {
    events, end := [], 0;
    ghost var k := 0;
    ghost var data := buf[..numRead];
    while end < numRead
      invariant k <= |rs| && end == |PackAll(rs[..k])| <= numRead
      invariant events == Events(rs[..k])
      decreases numRead - end
    {
      BufferRemains(rs, k);
      RecordInBuffer(data, rs, k, end);
      var here := buf[end..numRead];
      assert here == data[end..];
      var record := Header(here);
      events := events + [record.event];
      end := end + HEADER + record.len;
      EventsAppend(rs, k);
      k := k + 1;
    }
    BufferRemains(rs, k);
    assert rs[..k] == rs;
  }

  // ----- The instance -----

  function Records(events: seq<Event>, unit: nat): seq<Record>
    requires unit > 0
  {
    seq(|events|, k requires 0 <= k < |events| => Record(events[k], NameField(events[k], unit)))
  }

  lemma NameFieldPads(e: Event, unit: nat)
    requires 0 < unit <= NAME_MAX + 1 && Representable(e)
    ensures WellPadded(Record(e, NameField(e, unit)))
    ensures |Pack(Record(e, NameField(e, unit)))| == Size(e, unit)
  {
    RoundUpBounds(|e.name| + 1, unit, 0);
    HeaderOfPacked(Record(e, NameField(e, unit)), []);
  }

  lemma RecordsPad(events: seq<Event>, unit: nat)
    requires 0 < unit <= NAME_MAX + 1 && forall e :: e in events ==> Representable(e)
    ensures forall r :: r in Records(events, unit) ==> WellPadded(r)
  {
    forall r | r in Records(events, unit) ensures WellPadded(r) {
      var k :| 0 <= k < |events| && Records(events, unit)[k] == r;
      NameFieldPads(events[k], unit);
    }
  }

  datatype ReadResult = Bytes(count: nat) | EAGAIN | EINVAL

  /** The bytes a read of these events returns. */
  function Packed(events: seq<Event>, unit: nat): seq<Byte>
    requires 0 < unit <= NAME_MAX + 1 && forall e :: e in events ==> Representable(e)
  {
    RecordsPad(events, unit);
    PackAll(Records(events, unit))
  }

  lemma PackedAppend(events: seq<Event>, e: Event, unit: nat)
    requires 0 < unit <= NAME_MAX + 1 && forall x :: x in events + [e] ==> Representable(x)
    ensures WellPadded(Record(e, NameField(e, unit)))
    ensures Packed(events + [e], unit) == Packed(events, unit) + Pack(Record(e, NameField(e, unit)))
    ensures |Packed(events + [e], unit)| == |Packed(events, unit)| + Size(e, unit)
  {
    NameFieldPads(e, unit);
    RecordsPad(events, unit);
    RecordsPad(events + [e], unit);
    var rs := Records(events + [e], unit);
    assert rs[..|events|] == Records(events, unit);
  }

  method CountFitting(queue: seq<Event>, unit: nat, room: nat) returns (k: nat)
    requires unit > 0
    ensures k == Fit(queue, unit, room)
  {
    k := 0;
    var left: nat := room;
    assert queue[0..] == queue;
    while k < |queue| && Size(queue[k], unit) <= left
      invariant k <= |queue|
      invariant Fit(queue, unit, room) == k + Fit(queue[k..], unit, left)
    {
      assert queue[k..][1..] == queue[k + 1..];
      left := left - Size(queue[k], unit);
      k := k + 1;
    }
  }

  method PackEvents(events: seq<Event>, unit: nat) returns (bytes: seq<Byte>)
    requires 0 < unit <= NAME_MAX + 1 && forall e :: e in events ==> Representable(e)
    ensures bytes == Packed(events, unit) && |bytes| == TotalSize(events, unit)
  {
    bytes := [];
    for k := 0 to |events|
      invariant bytes == Packed(events[..k], unit) && |bytes| == TotalSize(events[..k], unit)
    {
      assert events[..k + 1] == events[..k] + [events[k]];
      PackedAppend(events[..k], events[k], unit);
      bytes := bytes + Pack(Record(events[k], NameField(events[k], unit)));
    }
    assert events[..|events|] == events;
  }

  class Instance {
    const max: nat
    const unit: nat
    var queue: seq<Event>

    predicate Valid()
      reads this
    {
      0 < unit <= NAME_MAX + 1 && forall k :: 0 <= k < |queue| ==> Representable(queue[k])
    }

    constructor (limit: nat, padding: nat)
      requires 0 < padding <= NAME_MAX + 1
      ensures Valid() && max == limit && unit == padding && queue == []
    {
      max, unit, queue := limit, padding, [];
    }

    method Notify(e: Event)
      requires Valid() && Representable(e)
      modifies this
      ensures Valid() && queue == Enqueue(old(queue), max, e)
    {
      if queue != [] && queue[|queue| - 1] == e {
        return;
      }
      if |queue| < max {
        queue := queue + [e];
      } else if queue == [] || queue[|queue| - 1] != OVERFLOW {
        queue := queue + [OVERFLOW];
      }
    }

    /** read(): whole events are moved from the head of the queue to the front
        of the buffer, the rest of which is left alone. */
    method ReadInto(buf: array<Byte>) returns (result: ReadResult)
      requires Valid()
      modifies this, buf
      ensures Valid() && Fit(old(queue), unit, buf.Length) <= |old(queue)|
      ensures queue == old(queue)[Fit(old(queue), unit, buf.Length)..]
      ensures result == EAGAIN <==> old(queue) == []
      ensures result == EINVAL <==> old(queue) != [] && Fit(old(queue), unit, buf.Length) == 0
      ensures result.Bytes? ==>
                && 0 < result.count <= buf.Length
                && buf[..result.count] == Packed(old(queue)[..Fit(old(queue), unit, buf.Length)], unit)
                && buf[result.count..] == old(buf[result.count..])
    {
      if queue == [] {
        return EAGAIN;
      }
      var k := CountFitting(queue, unit, buf.Length);
      if k == 0 {
        return EINVAL;
      }
      FitIsLargest(queue, unit, buf.Length);
      var bytes := PackEvents(queue[..k], unit);
      queue := queue[k..];
      forall i | 0 <= i < |bytes| {
        buf[i] := bytes[i];
      }
      assert buf[..|bytes|] == bytes;
      return Bytes(|bytes|);
    }

    /** One round of the loop in Listing 19-1: what the program processes is
        what left the queue, event for event. */
    method ReadAndWalk(buf: array<Byte>) returns (events: seq<Event>)
      requires Valid()
      modifies this, buf
      ensures Valid() && events + queue == old(queue)
      ensures |events| == Fit(old(queue), unit, buf.Length)
    {
      var result := ReadInto(buf);
      ghost var taken := old(queue)[..Fit(old(queue), unit, buf.Length)];
      events := [];
      if result.Bytes? {
        RecordsPad(taken, unit);
        var end;
        events, end := WalkBuffer(buf, result.count, Records(taken, unit));
        assert events == taken;
      }
    }

    /** Any sequence of events and reads, from an empty queue on: what is read and
        what remains are those of `Run`. */
    method PerformAll(calls: seq<Call>) returns (delivered: seq<Event>)
      requires Valid() && queue == []
      requires forall k :: 0 <= k < |calls| && calls[k].Generate? ==> Representable(calls[k].event)
      modifies this
      ensures Valid()
      ensures queue == Run(max, unit, calls).queue && delivered == Run(max, unit, calls).delivered
    {
      delivered := [];
      for k := 0 to |calls|
        invariant Valid()
        invariant queue == Run(max, unit, calls[..k]).queue && delivered == Run(max, unit, calls[..k]).delivered
      {
        assert calls[..k + 1][..k] == calls[..k];
        match calls[k] {
          case Generate(e) => Notify(e);
          case Read(room) =>
            var buf := new Byte[room](_ => 0);
            FitWithin(queue, unit, room);
            var events := ReadAndWalk(buf);
            delivered := delivered + events;
        }
      }
      assert calls[..|calls|] == calls;
    }
  }
}
