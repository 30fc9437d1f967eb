/** The fixed-window rate limiter: one counter per key, which lives for one window. */
module RateLimit {
  import opened Wrappers

  /** A live counter and the instant its window began. */
  datatype Counter = Counter(count: nat, birth: int)

  /** INCR followed by EXPIRE on the first increment, as one step. */
  function Increment(counter: Option<Counter>, now: int, window: nat): (r: Counter)
    ensures r.count >= 1 && r.birth <= now
    ensures window > 0 ==> now < r.birth + window
  {
    if counter.Some? && counter.value.birth <= now < counter.value.birth + window
    then Counter(counter.value.count + 1, counter.value.birth)
    else Counter(1, now)
  }

  /** The uses of one key: a request that is checked, or a failed login that is recorded. */
  datatype Use = Check(now: int) | Record(now: int)

  /** A use and the counter right after it. */
  datatype Event = Event(use: Use, counter: Counter)

  predicate Admitted(limit: nat, e: Event) {
    e.use.Check? && e.counter.count <= limit
  }

  function LastCounter(events: seq<Event>): Option<Counter> {
    if events == [] then None else Some(events[|events| - 1].counter)
  }

  function Events(uses: seq<Use>, window: nat): (events: seq<Event>)
    ensures |events| == |uses|
  {
    if uses == [] then []
    else
      var before := Events(uses[..|uses| - 1], window);
      var use := uses[|uses| - 1];
      before + [Event(use, Increment(LastCounter(before), use.now, window))]
  }

  predicate Ordered(uses: seq<Use>) {
    forall i, j | 0 <= i < j < |uses| :: uses[i].now <= uses[j].now
  }

  // ---------- Lifetimes ----------

  /** Within a lifetime the counter numbers the uses 1, 2, 3, ...; the next lifetime begins when the
      window of the last one is over. */
  ghost predicate Numbered(events: seq<Event>, window: nat) {
    && (forall i | 0 <= i < |events| :: events[i].counter.birth <= events[i].use.now < events[i].counter.birth + window)
    && (forall i | 0 <= i < |events| :: events[i].counter.count >= 1)
    && (forall i | 0 <= i < |events| :: events[i].counter.count == 1 ==> events[i].counter.birth == events[i].use.now)
    && (forall i, j | 0 <= i < j < |events| ::
          if events[i].counter.birth == events[j].counter.birth then events[i].counter.count < events[j].counter.count
          else events[i].counter.birth + window <= events[j].counter.birth)
  }

  lemma NumberedNext(before: seq<Event>, e: Event, window: nat)
    requires window > 0 && Numbered(before, window)
    requires e.counter == Increment(LastCounter(before), e.use.now, window)
    requires before != [] ==> before[|before| - 1].use.now <= e.use.now
    ensures Numbered(before + [e], window)
  {
    var events := before + [e];
    forall i | 0 <= i < |before|
      ensures if events[i].counter.birth == e.counter.birth then events[i].counter.count < e.counter.count
              else events[i].counter.birth + window <= e.counter.birth
    {
      var last := before[|before| - 1];
      assert i < |before| - 1 ==>
        if before[i].counter.birth == last.counter.birth then before[i].counter.count < last.counter.count
        else before[i].counter.birth + window <= last.counter.birth;
    }
  }

  lemma {:induction false} EventsNumbered(uses: seq<Use>, window: nat)
    requires window > 0 && Ordered(uses)
    ensures Numbered(Events(uses, window), window)
    ensures forall i | 0 <= i < |uses| :: Events(uses, window)[i].use == uses[i]
  {
    if uses != [] {
      var before := Events(uses[..|uses| - 1], window);
      EventsNumbered(uses[..|uses| - 1], window);
      NumberedNext(before, Events(uses, window)[|uses| - 1], window);
    }
  }

  // ---------- How many events satisfy a property ----------

  function One(b: bool): nat {
    if b then 1 else 0
  }

  function Tally(events: seq<Event>, p: Event -> bool): nat {
    if events == [] then 0
    else Tally(events[..|events| - 1], p) + One(p(events[|events| - 1]))
  }

  /** Numbers that go up one by one at least fit below their maximum. */
  lemma {:induction false} TallyWithin(events: seq<Event>, p: Event -> bool, low: nat, high: nat)
    requires low <= high
    requires forall i | 0 <= i < |events| :: p(events[i]) ==> low < events[i].counter.count <= high
    requires forall i, j | 0 <= i < j < |events| && p(events[i]) && p(events[j]) ::
      events[i].counter.count < events[j].counter.count
    ensures Tally(events, p) <= high - low
  {
    if events != [] {
      var n := |events| - 1;
      var last := events[n];
      if p(last) {
        TallyWithin(events[..n], p, low, last.counter.count - 1);
      } else {
        TallyWithin(events[..n], p, low, high);
      }
    }
  }

  lemma {:induction false} TallyEither(events: seq<Event>, p: Event -> bool, q: Event -> bool, r: Event -> bool)
    requires forall i | 0 <= i < |events| :: p(events[i]) ==> q(events[i]) || r(events[i])
    ensures Tally(events, p) <= Tally(events, q) + Tally(events, r)
  {
    if events != [] {
      TallyEither(events[..|events| - 1], p, q, r);
    }
  }

  // ---------- Bounds ----------

  function AdmittedIn(limit: nat, birth: int): Event -> bool {
    (e: Event) => Admitted(limit, e) && e.counter.birth == birth
  }

  /** At most limit requests are admitted in one lifetime of the key. */
  lemma AdmittedPerLifetime(uses: seq<Use>, window: nat, limit: nat, birth: int)
    requires window > 0 && Ordered(uses)
    ensures Tally(Events(uses, window), AdmittedIn(limit, birth)) <= limit
  {
    EventsNumbered(uses, window);
    TallyWithin(Events(uses, window), AdmittedIn(limit, birth), 0, limit);
  }

  function AdmittedDuring(limit: nat, from: int, window: nat): Event -> bool {
    (e: Event) => Admitted(limit, e) && from <= e.use.now < from + window
  }

  function AdmittedAfterBirth(limit: nat, birth: int): Event -> bool {
    (e: Event) => Admitted(limit, e) && e.counter.birth == birth && e.counter.count > 1
  }

  /** The lifetimes that an interval of the window's length meets are that of its first use and, if
      that began before the interval, one more. */
  lemma TwoLifetimes(events: seq<Event>, window: nat, limit: nat, from: int, first: nat, last: nat, i: nat)
    requires window > 0 && Numbered(events, window)
    requires first <= i <= last < |events|
    requires from <= events[first].use.now && events[last].use.now < from + window
    ensures events[i].counter.birth == events[first].counter.birth
      || events[i].counter.birth == events[last].counter.birth
    ensures events[first].counter.birth >= from ==> events[i].counter.birth == events[first].counter.birth
  {
  }

  lemma {:induction false} SomeSatisfies(events: seq<Event>, p: Event -> bool) returns (first: nat, last: nat)
    requires Tally(events, p) > 0
    ensures first <= last < |events| && p(events[first]) && p(events[last])
    ensures forall i | 0 <= i < |events| :: p(events[i]) ==> first <= i <= last
  {
    var n := |events| - 1;
    if Tally(events[..n], p) == 0 {
      TallyZero(events[..n], p);
      return n, n;
    }
    first, last := SomeSatisfies(events[..n], p);
    if p(events[n]) { last := n; }
  }

  lemma {:induction false} TallyZero(events: seq<Event>, p: Event -> bool)
    ensures Tally(events, p) == 0 ==> forall i | 0 <= i < |events| :: !p(events[i])
  {
    if events != [] {
      TallyZero(events[..|events| - 1], p);
    }
  }

  /** All of them in one lifetime. */
  lemma WithinLifetime(events: seq<Event>, window: nat, limit: nat, from: int, birth: int)
    requires Numbered(events, window)
    requires forall i | 0 <= i < |events| :: AdmittedDuring(limit, from, window)(events[i]) ==>
      events[i].counter.birth == birth
    ensures Tally(events, AdmittedDuring(limit, from, window)) <= limit
  {
    TallyWithin(events, AdmittedDuring(limit, from, window), 0, limit);
  }

  /** The end of one lifetime, without the use that opened it, and the next one. */
  lemma AcrossLifetimes(events: seq<Event>, window: nat, limit: nat, from: int, birth: int, birth': int)
    requires Numbered(events, window) && limit > 0 && birth < from
    requires forall i | 0 <= i < |events| :: AdmittedDuring(limit, from, window)(events[i]) ==>
      events[i].counter.birth == birth || events[i].counter.birth == birth'
    ensures Tally(events, AdmittedDuring(limit, from, window)) <= 2 * limit - 1
  {
    TallyEither(events, AdmittedDuring(limit, from, window), AdmittedAfterBirth(limit, birth),
                AdmittedIn(limit, birth'));
    TallyWithin(events, AdmittedAfterBirth(limit, birth), 1, limit);
    TallyWithin(events, AdmittedIn(limit, birth'), 0, limit);
  }

  /** In any half-open interval of the window's length at most 2 * limit - 1 requests are admitted. */
  lemma AdmittedPerInterval(uses: seq<Use>, window: nat, limit: nat, from: int)
    requires window > 0 && limit > 0 && Ordered(uses)
    ensures Tally(Events(uses, window), AdmittedDuring(limit, from, window)) <= 2 * limit - 1
  {
    var events, during := Events(uses, window), AdmittedDuring(limit, from, window);
    EventsNumbered(uses, window);
    if Tally(events, during) > 0 {
      var first, last := SomeSatisfies(events, during);
      var b, b' := events[first].counter.birth, events[last].counter.birth;
      forall i | 0 <= i < |events| && during(events[i])
        ensures events[i].counter.birth == b || events[i].counter.birth == b'
        ensures b >= from ==> events[i].counter.birth == b
      {
        TwoLifetimes(events, window, limit, from, first, last, i);
      }
      if b >= from {
        WithinLifetime(events, window, limit, from, b);
      } else {
        AcrossLifetimes(events, window, limit, from, b, b');
      }
    }
  }

  // ---------- The interval bound is reached ----------

  lemma EventsNext(uses: seq<Use>, window: nat, use: Use)
    ensures Events(uses + [use], window) ==
      Events(uses, window) + [Event(use, Increment(LastCounter(Events(uses, window)), use.now, window))]
  {
    assert (uses + [use])[..|uses|] == uses;
  }

  lemma TallyNext(events: seq<Event>, e: Event, p: Event -> bool)
    ensures Tally(events + [e], p) == Tally(events, p) + One(p(e))
  {
    assert (events + [e])[..|events|] == events;
  }

  /** The uses so far end with this counter, no later than now. */
  ghost predicate EndsWith(uses: seq<Use>, window: nat, counter: Counter, now: int) {
    && Ordered(uses) && (forall i | 0 <= i < |uses| :: uses[i].now <= now)
    && LastCounter(Events(uses, window)) == Some(counter)
  }

  lemma OneMore(uses: seq<Use>, window: nat, limit: nat, from: int, now: int, before: Counter) returns (more: seq<Use>)
    requires EndsWith(uses, window, before, now)
    ensures
      var counter := Increment(Some(before), now, window);
      && EndsWith(more, window, counter, now)
      && Tally(Events(more, window), AdmittedDuring(limit, from, window)) ==
           Tally(Events(uses, window), AdmittedDuring(limit, from, window))
             + One(counter.count <= limit && from <= now < from + window)
  {
    more := uses + [Check(now)];
    EventsNext(uses, window, Check(now));
    TallyNext(Events(uses, window), Event(Check(now), Increment(Some(before), now, window)),
              AdmittedDuring(limit, from, window));
  }

  lemma {:induction false} Burst(uses: seq<Use>, window: nat, limit: nat, from: int, now: int, before: Counter, k: nat)
      returns (more: seq<Use>)
    requires EndsWith(uses, window, before, now) && before.birth <= now < before.birth + window
    requires from <= now < from + window && before.count + k <= limit
    ensures EndsWith(more, window, Counter(before.count + k, before.birth), now)
    ensures Tally(Events(more, window), AdmittedDuring(limit, from, window)) ==
      Tally(Events(uses, window), AdmittedDuring(limit, from, window)) + k
    decreases k
  {
    if k == 0 {
      more := uses;
    } else {
      more := OneMore(uses, window, limit, from, now, before);
      more := Burst(more, window, limit, from, now, Counter(before.count + 1, before.birth), k - 1);
    }
  }

  /** One request opens a window, the others come at its end, and the next window fills at once. */
  lemma IntervalTight(window: nat, limit: nat) returns (uses: seq<Use>)
    requires window > 1 && limit > 0
    ensures Ordered(uses) && Tally(Events(uses, window), AdmittedDuring(limit, 1, window)) == 2 * limit - 1
  {
    uses := [Check(0)];
    EventsNext([], window, Check(0));
    assert [] + [Check(0)] == uses;
    assert Events(uses, window) == [Event(Check(0), Counter(1, 0))];
    assert Tally(Events(uses, window), AdmittedDuring(limit, 1, window)) == 0 by {
      TallyNext([], Event(Check(0), Counter(1, 0)), AdmittedDuring(limit, 1, window));
      assert [] + [Event(Check(0), Counter(1, 0))] == Events(uses, window);
    }
    uses := Burst(uses, window, limit, 1, window - 1, Counter(1, 0), limit - 1);
    uses := OneMore(uses, window, limit, 1, window, Counter(limit, 0));
    uses := Burst(uses, window, limit, 1, window, Counter(1, window), limit - 1);
  }

  // ---------- The login key ----------

  /** Serialised logins on one address: a failure is recorded only right after the check that
      admitted its login. */
  ghost predicate Logins(uses: seq<Use>, window: nat, limit: nat) {
    forall i | 0 <= i < |uses| :: uses[i].Record? ==> i > 0 && Admitted(limit, Events(uses, window)[i - 1])
  }

  function Charged(limit: nat, birth: int): Event -> bool {
    (e: Event) => (Admitted(limit, e) || e.use.Record?) && e.counter.birth == birth
  }

  /** Admitted logins and recorded failures share the counter: in one lifetime of the key they are
      at most limit + 1 together. */
  lemma LoginsPerLifetime(uses: seq<Use>, window: nat, limit: nat, birth: int)
    requires window > 0 && Ordered(uses) && Logins(uses, window, limit)
    ensures Tally(Events(uses, window), Charged(limit, birth)) <= limit + 1
  {
    var events := Events(uses, window);
    EventsNumbered(uses, window);
    forall i | 0 <= i < |events| && Charged(limit, birth)(events[i]) ensures events[i].counter.count <= limit + 1 {
      if events[i].use.Record? {
        assert uses[i].Record?;
        NextCount(uses, window, i);
      }
    }
    TallyWithin(events, Charged(limit, birth), 0, limit + 1);
  }

  lemma {:induction false} NextCount(uses: seq<Use>, window: nat, i: nat)
    requires 0 < i < |uses|
    ensures Events(uses, window)[i].counter.count <= Events(uses, window)[i - 1].counter.count + 1
  {
    if i < |uses| - 1 {
      NextCount(uses[..|uses| - 1], window, i);
    }
  }
}
