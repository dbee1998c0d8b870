/** The rate limiter's Durable Object: a fixed window that its first request opens, and an alarm that cleans it up. */
module RateLimiter {
  import opened Numbers
  import opened Text

  datatype Window = Window(start: int, count: nat)

  /** The storage of one key: the window, and when the alarm is due. */
  datatype State = State(window: Option<Window>, alarmAt: Option<int>)

  datatype Response = Allowed(remaining: int) | Denied(retryAfter: int)

  /** `Math.max(1, limit ?? 60)`, for the limit and for the window in seconds. */
  function AtLeastOne(n: Option<int>): (r: int)
    ensures r >= 1
  {
    Max(1, n.GetOr(60))
  }

  /** `Math.ceil(ms / 1000)` */
  function CeilSeconds(ms: int): int { (ms + 999) / 1000 }

  /** The window that a request at `now` counts in. */
  function Current(s: State, now: int, windowMs: int): Window {
    var w := s.window.GetOr(Window(now, 0));
    if now - w.start >= windowMs then Window(now, 0) else w
  }

  /** The `/consume` step. */
  function Consume(s: State, now: int, limit: int, windowMs: int): (State, Response) {
    var w := Current(s, now, windowMs);
    if w.count >= limit then (s, Denied(Max(1, CeilSeconds(w.start + windowMs - now))))
    else (State(Some(Window(w.start, w.count + 1)), Some(w.start + windowMs + 1000)), Allowed(limit - (w.count + 1)))
  }

  /** `alarm` */
  function Alarmed(): State { State(None, None) }

  datatype Event = Request(now: int) | Alarm(now: int)

  function Next(s: State, e: Event, limit: int, windowMs: int): State {
    match e
    case Request(now) => Consume(s, now, limit, windowMs).0
    case Alarm(_) => Alarmed()
  }

  /** The state after some events. */
  function After(events: seq<Event>, limit: int, windowMs: int): State {
    if events == [] then State(None, None)
        else Next(After(events[..|events| - 1], limit, windowMs), events[|events| - 1], limit, windowMs)
  }

  /** The answer to the last event; an alarm has none. */
  function Answer(events: seq<Event>, limit: int, windowMs: int): Option<Response>
    requires events != []
  {
    var last := events[|events| - 1];
    if last.Alarm? then None
        else Some(Consume(After(events[..|events| - 1], limit, windowMs), last.now, limit, windowMs).1)
  }

  /** The clock never goes back, and an alarm only fires when one is set and due. */
  predicate Timely(events: seq<Event>, limit: int, windowMs: int) {
    events == [] ||
    (var init, last := events[..|events| - 1], events[|events| - 1];
     && Timely(init, limit, windowMs)
     && (init != [] ==> init[|init| - 1].now <= last.now)
     && (last.Alarm? ==> var due := After(init, limit, windowMs).alarmAt; due.Some? && due.value <= last.now))
  }

  /** How many requests are admitted from `lo` on and before `hi`. */
  function Admitted(events: seq<Event>, limit: int, windowMs: int, lo: int, hi: int): nat {
    if events == [] then 0
    else
      var last := events[|events| - 1];
      var answer := Answer(events, limit, windowMs);
      Admitted(events[..|events| - 1], limit, windowMs, lo, hi)
      + if answer.Some? && answer.value.Allowed? && lo <= last.now < hi then 1 else 0
  }

  // ---------------------------------------------------------------- how many requests are admitted

  /** The last window that was opened, whether or not it is still stored. */
  function LastWindow(events: seq<Event>, limit: int, windowMs: int): Option<Window> {
    if events == [] then None
    else
      var s := After(events, limit, windowMs);
      if s.window.Some? then s.window else LastWindow(events[..|events| - 1], limit, windowMs)
  }

  /** The time of the last event. */
  function Clock(events: seq<Event>): int
    requires events != []
  {
    events[|events| - 1].now
  }

  /** The stored window is the last one; once it is gone it is over. */
  predicate WindowOk(events: seq<Event>, limit: int, windowMs: int) {
    var s, last := After(events, limit, windowMs), LastWindow(events, limit, windowMs);
    && (last.Some? ==> events != [] && 1 <= last.value.count <= limit && last.value.start <= Clock(events))
    && (s.window.Some? ==> s.window == last && s.alarmAt == Some(last.value.start + windowMs + 1000))
    && (s.window.None? ==> s.alarmAt == None && (last.Some? ==> last.value.start + windowMs <= Clock(events)))
  }

  /** Requests admitted in an interval of one window length, told by where the last window starts. */
  predicate CountOk(events: seq<Event>, limit: int, windowMs: int, t: int) {
    var last := LastWindow(events, limit, windowMs);
    var n := Admitted(events, limit, windowMs, t, t + windowMs);
    && (last.None? ==> n == 0)
    && (events != [] && Clock(events) < t ==> n == 0)
    && (last.Some? && last.value.start < t ==> n <= last.value.count - 1)
    && (last.Some? && t <= last.value.start < t + windowMs ==> n <= limit - 1 + last.value.count)
    && n <= 2 * limit - 1
  }

  lemma {:induction false} AlwaysOk(events: seq<Event>, limit: int, windowMs: int, t: int)
    requires limit >= 1 && windowMs >= 1 && Timely(events, limit, windowMs)
    ensures WindowOk(events, limit, windowMs) && CountOk(events, limit, windowMs, t)
  {
    if events != [] {
      var init, e := events[..|events| - 1], events[|events| - 1];
      AlwaysOk(init, limit, windowMs, t);
      assert events == init + [e];
    }
  }

  /** In every run the stored window never counts more than `limit`, and no interval of one window length has more than
      `2 limit - 1` admitted requests. */
  lemma {:induction false} AtMostTwice(events: seq<Event>, limit: int, windowMs: int, t: int)
    requires limit >= 1 && windowMs >= 1 && Timely(events, limit, windowMs)
    ensures Admitted(events, limit, windowMs, t, t + windowMs) <= 2 * limit - 1
    ensures var w := After(events, limit, windowMs).window; w.Some? ==> w.value.count <= limit
  {
    AlwaysOk(events, limit, windowMs, t);
  }

  // ---------------------------------------------------------------- the bound is reached

  function Times(n: nat, e: Event): (r: seq<Event>)
    ensures |r| == n
  {
    if n == 0 then [] else Times(n - 1, e) + [e]
  }

  predicate InTime(events: seq<Event>, limit: int, windowMs: int, now: int) {
    Timely(events, limit, windowMs) && (events != [] ==> Clock(events) <= now)
  }

  lemma {:induction false} OneAdmitted(init: seq<Event>, now: int, limit: int, windowMs: int, w: Window, lo: int,
      hi: int)
    requires InTime(init, limit, windowMs, now) && lo <= now < hi
    requires Current(After(init, limit, windowMs), now, windowMs) == w && w.count < limit
             && w.start <= now < w.start + windowMs
    ensures var events := init + [Request(now)];
            && InTime(events, limit, windowMs, now)
            && Current(After(events, limit, windowMs), now, windowMs) == Window(w.start, w.count + 1)
            && Admitted(events, limit, windowMs, lo, hi) == Admitted(init, limit, windowMs, lo, hi) + 1
  {
  }

  lemma {:induction false} OneMore(init: seq<Event>, n: nat, e: Event)
    requires n > 0
    ensures init + Times(n, e) == init + Times(n - 1, e) + [e]
  {
  }

  /** A burst of requests at one time, in a window that has room for them. */
  lemma {:induction false} Burst(init: seq<Event>, n: nat, now: int, limit: int, windowMs: int, w: Window, lo: int,
      hi: int)
    requires InTime(init, limit, windowMs, now) && lo <= now < hi
    requires Current(After(init, limit, windowMs), now, windowMs) == w && w.count + n <= limit
             && w.start <= now < w.start + windowMs
    ensures var events := init + Times(n, Request(now));
            && InTime(events, limit, windowMs, now)
            && Current(After(events, limit, windowMs), now, windowMs) == Window(w.start, w.count + n)
            && Admitted(events, limit, windowMs, lo, hi) == Admitted(init, limit, windowMs, lo, hi) + n
  {
    if n == 0 {
      assert init + Times(0, Request(now)) == init;
    } else {
      Burst(init, n - 1, now, limit, windowMs, w, lo, hi);
      OneMore(init, n, Request(now));
      OneAdmitted(init + Times(n - 1, Request(now)), now, limit, windowMs, Window(w.start, w.count + n - 1), lo, hi);
    }
  }

  /** One request, the rest of the limit at the end of its window, and as many as the limit at the start of the next. */
  function Straddle(limit: int, windowMs: int): seq<Event>
    requires limit >= 1
  {
    [Request(0)] + Times(limit - 1, Request(windowMs - 1)) + Times(limit, Request(windowMs))
  }

  lemma {:induction false} OpensWindow(limit: int, windowMs: int)
    requires limit >= 1 && windowMs >= 2
    ensures var first := [Request(0)];
            && Timely(first, limit, windowMs) && After(first, limit, windowMs).window == Some(Window(0, 1))
            && Admitted(first, limit, windowMs, windowMs - 1, 2 * windowMs - 1) == 0
  {
  }

  /** The bound is the best possible for every limit: this run admits `2 limit - 1` requests within one window
      length. */
  lemma {:induction false} BoundReached(limit: int, windowMs: int)
    requires limit >= 1 && windowMs >= 2
    ensures Timely(Straddle(limit, windowMs), limit, windowMs)
    ensures Admitted(Straddle(limit, windowMs), limit, windowMs, windowMs - 1, 2 * windowMs - 1) == 2 * limit - 1
  {
    var first := [Request(0)];
    OpensWindow(limit, windowMs);
    Burst(first, limit - 1, windowMs - 1, limit, windowMs, Window(0, 1), windowMs - 1, 2 * windowMs - 1);
    var second := first + Times(limit - 1, Request(windowMs - 1));
    Burst(second, limit, windowMs, limit, windowMs, Window(windowMs, 0), windowMs - 1, 2 * windowMs - 1);
  }

  // ---------------------------------------------------------------- alarms

  function WithoutAlarms(events: seq<Event>): seq<Event> {
    if events == [] then []
    else WithoutAlarms(events[..|events| - 1]) + if events[|events| - 1].Alarm? then [] else [events[|events| - 1]]
  }

  /** Two states that no request at `now` or later can tell apart: the same, or nothing against a window that is
      over. */
  predicate Same(a: State, b: State, now: int, windowMs: int) {
    a == b || (a.window.None? && (b.window.None? || b.window.value.start + windowMs <= now))
  }

  lemma {:induction false} SameAnswer(a: State, b: State, now: int, limit: int, windowMs: int)
    requires Same(a, b, now, windowMs)
    requires limit >= 1 && windowMs >= 1
    ensures Consume(a, now, limit, windowMs).1 == Consume(b, now, limit, windowMs).1
    ensures Same(Consume(a, now, limit, windowMs).0, Consume(b, now, limit, windowMs).0, now, windowMs)
  {
  }

  lemma {:induction false} AlarmsHidden(events: seq<Event>, limit: int, windowMs: int)
    requires limit >= 1 && windowMs >= 1 && Timely(events, limit, windowMs)
    ensures events != []
            ==> Same(After(events, limit, windowMs), After(WithoutAlarms(events), limit, windowMs), Clock(events),
            windowMs)
    ensures events == [] ==> WithoutAlarms(events) == []
  {
    if events != [] {
      var init, e := events[..|events| - 1], events[|events| - 1];
      AlarmsHidden(init, limit, windowMs);
      AlwaysOk(init, limit, windowMs, 0);
      var a, b := After(init, limit, windowMs), After(WithoutAlarms(init), limit, windowMs);
      if e.Request? {
        SameAnswer(a, b, e.now, limit, windowMs);
      } else {
        assert WithoutAlarms(init) + [] == WithoutAlarms(init);
      }
    }
  }

  /** Whether and when alarms fire, at or after their time, never changes the answer to a request. */
  lemma {:induction false} AlarmInsensitive(events: seq<Event>, limit: int, windowMs: int)
    requires limit >= 1 && windowMs >= 1 && Timely(events, limit, windowMs) && events != [] && Last(events).Request?
    ensures WithoutAlarms(events) != []
            && Answer(events, limit, windowMs) == Answer(WithoutAlarms(events), limit, windowMs)
  {
    var init, e := events[..|events| - 1], Last(events);
    AlarmsHidden(init, limit, windowMs);
    if init != [] {
      SameAnswer(After(init, limit, windowMs), After(WithoutAlarms(init), limit, windowMs), e.now, limit, windowMs);
    }
  }

  function Last(events: seq<Event>): Event
    requires events != []
  {
    events[|events| - 1]
  }

  // ---------------------------------------------------------------- what remains

  /** The state after `k` more requests at one time. */
  function Again(s: State, now: int, limit: int, windowMs: int, k: nat): State {
    if k == 0 then s else Consume(Again(s, now, limit, windowMs, k - 1), now, limit, windowMs).0
  }

  lemma {:induction false} AgainCounts(s: State, now: int, limit: int, windowMs: int, k: nat)
    requires windowMs >= 1
    ensures var w, after := Current(s, now, windowMs), Current(Again(s, now, limit, windowMs, k), now, windowMs);
            after == if w.count >= limit then w else Window(w.start, Min(w.count + k, limit))
  {
    if k > 0 { AgainCounts(s, now, limit, windowMs, k - 1); }
  }

  /** `remaining` is how many more requests at the same time are admitted. */
  lemma {:induction false} RemainingExact(s: State, now: int, limit: int, windowMs: int, k: nat)
    requires windowMs >= 1 && Consume(s, now, limit, windowMs).1.Allowed?
    ensures var (t, r) := Consume(s, now, limit, windowMs);
            && r.remaining >= 0
            && (Consume(Again(t, now, limit, windowMs, k), now, limit, windowMs).1.Allowed? <==> k < r.remaining)
  {
    AgainCounts(Consume(s, now, limit, windowMs).0, now, limit, windowMs, k);
  }

  /** What a request without limit or window asks for, and the least that can be asked. */
  lemma {:induction false} Defaults(n: int)
    ensures AtLeastOne(None) == 60
    ensures n >= 1 ==> AtLeastOne(Some(n)) == n
    ensures n < 1 ==> AtLeastOne(Some(n)) == 1
  {
  }

  /** An alarm leaves nothing, and the one that is set is due a second after the end of its window. */
  lemma {:induction false} AlarmSet(s: State, now: int, limit: int, windowMs: int)
    requires windowMs >= 1 && limit >= 1
    ensures var (t, r) := Consume(s, now, limit, windowMs);
            && (r.Denied? ==> t == s)
            && (r.Allowed? ==>
                  && t.window.Some? && t.window.value.count >= 1
                  && t.alarmAt == Some(t.window.value.start + windowMs + 1000)
                  && now - t.window.value.start < windowMs)
    ensures Alarmed().window.None? && Alarmed().alarmAt.None?
  {
  }

  // ---------------------------------------------------------------- when to come back

  /** After a denial, a request that many whole seconds later is admitted if and only if they are at least
      `retryAfter`. */
  lemma {:induction false} RetryAfterExact(s: State, now: int, limit: int, windowMs: int, seconds: nat)
    requires limit >= 1 && windowMs >= 1 && Consume(s, now, limit, windowMs).1.Denied?
    ensures var (t, r) := Consume(s, now, limit, windowMs);
            Consume(t, now + 1000 * seconds, limit, windowMs).1.Allowed? <==> seconds >= r.retryAfter
  {
  }

  // ---------------------------------------------------------------- the object as it runs

  class RateLimiterDO {
    var window: Option<Window>
    var alarmAt: Option<int>

    function Storage(): State
      reads this
    {
      State(window, alarmAt)
    }

    constructor ()
      ensures Storage() == Alarmed()
    {
      window, alarmAt := None, None;
    }

    /** The `/consume` request. */
    method ConsumeRequest(bodyLimit: Option<int>, bodySeconds: Option<int>, now: int) returns (r: Response)
      modifies this
      ensures (Storage(), r) == Consume(old(Storage()), now, AtLeastOne(bodyLimit), AtLeastOne(bodySeconds) * 1000)
    {
      var limit := AtLeastOne(bodyLimit);
      var windowMs := AtLeastOne(bodySeconds) * 1000;
      var windowStart, count := now, 0;
      if window.Some? { windowStart, count := window.value.start, window.value.count; }
      if now - windowStart >= windowMs { windowStart, count := now, 0; }
      if count >= limit {
        return Denied(Max(1, CeilSeconds(windowStart + windowMs - now)));
      }
      count := count + 1;
      window := Some(Window(windowStart, count));
      alarmAt := Some(windowStart + windowMs + 1000);
      return Allowed(limit - count);
    }

    method Alarm()
      modifies this
      ensures Storage() == Alarmed()
    {
      window, alarmAt := None, None;
    }
  }
}
