/**
 * `stream_submissions`: the loop that consumes the combined submission stream,
 * skips ids it has already processed, filters and notifies, and survives API
 * errors by reopening the stream with the same set of processed ids.
 *
 * The unbounded stream is modelled as a finite trace of events. `ApiError`
 * stands for the exception handler that logs, sleeps and reopens the stream.
 */
module Monitor {
  import opened Text
  import opened Filter
  import opened Results

  /** What the stream delivers: a submission, or an API error ending one stream session. */
  datatype Event =
    | Post(id: string, title: string, sub: string, permalink: string)
    | ApiError

  /** A notification together with the id of the submission that caused it. */
  datatype Delivery = Delivery(id: string, note: Notification)

  /** The coordinator's state: the processed ids and the deliveries made so far. */
  datatype State = State(processed: set<string>, log: seq<Delivery>)

  /** Every submission of the trace comes from a configured subreddit. */
  predicate FromConfigured(subreddits: map<string, Filters>, trace: seq<Event>)
  {
    forall e :: e in trace && e.Post? ==> Lower(e.sub) in subreddits
  }

  /** The ids of all submissions in the trace. */
  function PostIds(trace: seq<Event>): set<string>
  {
    set i | 0 <= i < |trace| && trace[i].Post? :: trace[i].id
  }

  /** The trace with its API errors removed. */
  function Posts(trace: seq<Event>): (r: seq<Event>)
    ensures forall e :: e in r ==> e in trace && e.Post?
  {
    if trace == [] then []
    else
      var last := trace[|trace| - 1];
      Posts(trace[..|trace| - 1]) + (if last.Post? then [last] else [])
  }

  /** One iteration of the loop body, or the error handler for `ApiError`. */
  function Step(subreddits: map<string, Filters>, s: State, e: Event): State
    requires e.Post? ==> Lower(e.sub) in subreddits
  {
    match e
    case ApiError => s
    case Post(id, title, sub, permalink) =>
      if id in s.processed then s
      else
        var sent := Process(subreddits, title, sub, permalink);
        State(s.processed + {id}, if sent.Some? then s.log + [Delivery(id, sent.value)] else s.log)
  }

  /** The state after consuming the whole trace, one event at a time. */
  function Replay(subreddits: map<string, Filters>, s: State, trace: seq<Event>): State
    requires FromConfigured(subreddits, trace)
    decreases |trace|
  {
    if trace == [] then s
    else
      var n := |trace| - 1;
      assert trace[n] in trace;
      Step(subreddits, Replay(subreddits, s, trace[..n]), trace[n])
  }

  /** Consuming `a` and then `b` is consuming `a + b`. */
  lemma {:induction false} ReplayAppend(subreddits: map<string, Filters>, s: State, a: seq<Event>, b: seq<Event>)
    requires FromConfigured(subreddits, a + b)
    ensures FromConfigured(subreddits, a) && FromConfigured(subreddits, b)
    ensures Replay(subreddits, s, a + b) == Replay(subreddits, Replay(subreddits, s, a), b)
  {
    assert forall e :: e in a ==> e in a + b;
    assert forall e :: e in b ==> e in a + b;
    if b != [] {
      var n := |b| - 1;
      assert (a + b)[..|a + b| - 1] == a + b[..n];
      ReplayAppend(subreddits, s, a, b[..n]);
    } else {
      assert a + b == a;
    }
  }

  /**
   * Every submission id of the trace ends up processed, whether or not it
   * matched; the processed set only grows and earlier deliveries stay.
   */
  lemma {:induction false} ReplayGrows(subreddits: map<string, Filters>, s: State, trace: seq<Event>)
    requires FromConfigured(subreddits, trace)
    ensures Replay(subreddits, s, trace).processed == s.processed + PostIds(trace)
    ensures |s.log| <= |Replay(subreddits, s, trace).log|
    ensures Replay(subreddits, s, trace).log[..|s.log|] == s.log
  {
    if trace != [] {
      var n := |trace| - 1;
      ReplayGrows(subreddits, s, trace[..n]);
      assert PostIds(trace) == PostIds(trace[..n]) + (if trace[n].Post? then {trace[n].id} else {});
    }
  }

  /** Every delivery's id is processed, and no two deliveries share an id. */
  predicate Consistent(s: State)
  {
    && (forall j :: 0 <= j < |s.log| ==> s.log[j].id in s.processed)
    && (forall j, k :: 0 <= j < k < |s.log| ==> s.log[j].id != s.log[k].id)
  }

  /**
   * At most once: consuming a trace keeps deliveries unique per id, even when
   * the stream redelivers an id, and never delivers an id processed before.
   */
  lemma {:induction false} ReplayAtMostOnce(subreddits: map<string, Filters>, s: State, trace: seq<Event>)
    requires FromConfigured(subreddits, trace) && Consistent(s)
    ensures Consistent(Replay(subreddits, s, trace))
    ensures forall j :: |s.log| <= j < |Replay(subreddits, s, trace).log| ==>
      Replay(subreddits, s, trace).log[j].id !in s.processed
  {
    if trace != [] {
      var n := |trace| - 1;
      ReplayAtMostOnce(subreddits, s, trace[..n]);
      ReplayGrows(subreddits, s, trace[..n]);
    }
  }

  /** API errors change nothing: the run is the same with them removed. */
  lemma {:induction false} ApiErrorsInert(subreddits: map<string, Filters>, s: State, trace: seq<Event>)
    requires FromConfigured(subreddits, trace)
    ensures FromConfigured(subreddits, Posts(trace))
    ensures Replay(subreddits, s, trace) == Replay(subreddits, s, Posts(trace))
  {
    if trace != [] {
      var n := |trace| - 1;
      var last := trace[n];
      assert forall e :: e in trace[..n] ==> e in trace;
      ApiErrorsInert(subreddits, s, trace[..n]);
      if last.Post? {
        ReplayAppend(subreddits, s, Posts(trace[..n]), [last]);
      } else {
        assert Posts(trace) == Posts(trace[..n]);
      }
    }
  }

  /** `d` is the notification of a submission of `trace` that passed its subreddit's filter. */
  predicate DeliveredFrom(subreddits: map<string, Filters>, trace: seq<Event>, d: Delivery)
  {
    exists i :: 0 <= i < |trace| && IsMatchOf(subreddits, trace[i], d)
  }

  /** `d` is the notification of the submission `e`, which passed its subreddit's filter. */
  predicate IsMatchOf(subreddits: map<string, Filters>, e: Event, d: Delivery)
  {
    && e.Post? && Lower(e.sub) in subreddits
    && Matches(subreddits[Lower(e.sub)], e.title)
    && d == Delivery(e.id, Notify(e.title, e.permalink))
  }

  /**
   * Soundness: each new delivery is the notification of a submission of the
   * trace that passed its subreddit's filter.
   */
  lemma {:induction false} DeliveriesMatched(subreddits: map<string, Filters>, s: State, trace: seq<Event>)
    requires FromConfigured(subreddits, trace)
    ensures forall j :: |s.log| <= j < |Replay(subreddits, s, trace).log| ==>
      DeliveredFrom(subreddits, trace, Replay(subreddits, s, trace).log[j])
  {
    if trace != [] {
      var n := |trace| - 1;
      DeliveriesMatched(subreddits, s, trace[..n]);
      ReplayGrows(subreddits, s, trace[..n]);
      var before := Replay(subreddits, s, trace[..n]);
      var after := Replay(subreddits, s, trace);
      forall j | |s.log| <= j < |after.log|
        ensures DeliveredFrom(subreddits, trace, after.log[j])
      {
        if j < |before.log| {
          assert DeliveredFrom(subreddits, trace[..n], before.log[j]);
          var i :| 0 <= i < n && IsMatchOf(subreddits, trace[..n][i], before.log[j]);
          assert trace[..n][i] == trace[i];
        } else {
          assert trace[n] in trace;
          assert IsMatchOf(subreddits, trace[n], after.log[j]);
        }
      }
    }
  }

  /**
   * Completeness: a submission whose id is new to the run and that passes its
   * subreddit's filter is delivered.
   */
  lemma {:induction false} NewMatchDelivered(subreddits: map<string, Filters>, s: State, trace: seq<Event>, i: nat)
    requires FromConfigured(subreddits, trace)
    requires i < |trace| && trace[i].Post?
    requires trace[i].id !in s.processed && trace[i].id !in PostIds(trace[..i])
    requires Lower(trace[i].sub) in subreddits && Matches(subreddits[Lower(trace[i].sub)], trace[i].title)
    ensures Delivery(trace[i].id, Notify(trace[i].title, trace[i].permalink)) in Replay(subreddits, s, trace).log
  {
    var p := trace[i];
    assert trace == trace[..i + 1] + trace[i + 1..];
    ReplayAppend(subreddits, s, trace[..i + 1], trace[i + 1..]);
    assert trace[..i + 1][..i] == trace[..i];
    ReplayGrows(subreddits, s, trace[..i]);
    var mid := Replay(subreddits, s, trace[..i + 1]);
    assert mid.log[|mid.log| - 1] == Delivery(p.id, Notify(p.title, p.permalink));
    ReplayGrows(subreddits, mid, trace[i + 1..]);
    var last := Replay(subreddits, s, trace);
    assert last.log[|mid.log| - 1] == mid.log[|mid.log| - 1];
  }

  /**
   * A submission delivered again after an API error and a reconnect is
   * notified at most once in total.
   */
  lemma RedeliveryAfterReconnect(subreddits: map<string, Filters>, id: string, title: string, sub: string, permalink: string)
    requires Lower(sub) in subreddits
    ensures FromConfigured(subreddits, [Post(id, title, sub, permalink), ApiError, Post(id, title, sub, permalink)])
    ensures |Replay(subreddits, State({}, []), [Post(id, title, sub, permalink), ApiError, Post(id, title, sub, permalink)]).log| <= 1
  {
    var p := Post(id, title, sub, permalink);
    var t := [p, ApiError, p];
    var s0 := State({}, []);
    assert t[..1] == [p] && t[..2] == [p, ApiError] && [p, ApiError][..1] == [p] && [p][..0] == [];
    var s1 := Replay(subreddits, s0, [p]);
    assert s1 == Step(subreddits, Replay(subreddits, s0, [p][..0]), [p][0]);
    assert Replay(subreddits, s0, []) == s0;
    assert id in s1.processed && |s1.log| <= 1;
    assert Replay(subreddits, s0, [p, ApiError]) == s1;
    assert Replay(subreddits, s0, t) == Step(subreddits, s1, p) == s1;
  }

  /**
   * The stream coordinator. `processed` is the set created once before the
   * retry loop, so it survives reconnections; `notified` is what was handed
   * to the notification sink.
   */
  class Coordinator {
    const subreddits: map<string, Filters>
    var processed: set<string>
    var notified: seq<Notification>
    /** The id behind each notification, kept in step with `notified`. */
    ghost var deliveries: seq<Delivery>

    ghost predicate Valid()
      reads this
    {
      && |deliveries| == |notified|
      && (forall j :: 0 <= j < |notified| ==> deliveries[j].note == notified[j])
    }

    ghost function Snapshot(): State
      reads this
    {
      State(processed, deliveries)
    }

    constructor (subreddits: map<string, Filters>)
      ensures Valid() && this.subreddits == subreddits
      ensures processed == {} && notified == [] && deliveries == []
    {
      this.subreddits := subreddits;
      processed := {};
      notified := [];
      deliveries := [];
    }

    /** Consumes one event: a new submission is processed and marked; anything else changes nothing. */
    method Handle(e: Event)
      requires Valid() && (e.Post? ==> Lower(e.sub) in subreddits)
      modifies this
      ensures Valid() && Snapshot() == Step(subreddits, old(Snapshot()), e)
      ensures |old(notified)| <= |notified| && notified[..|old(notified)|] == old(notified)
    {
      if e.Post? && e.id !in processed {
        var sent := Process(subreddits, e.title, e.sub, e.permalink);
        if sent.Some? {
          notified := notified + [sent.value];
          deliveries := deliveries + [Delivery(e.id, sent.value)];
        }
        processed := processed + {e.id};
      }
    }

    /** Consumes a trace of events in order, as the retry loop does. */
    method Run(trace: seq<Event>)
      requires Valid() && FromConfigured(subreddits, trace)
      modifies this
      ensures Valid() && Snapshot() == Replay(subreddits, old(Snapshot()), trace)
      ensures processed == old(processed) + PostIds(trace)
      ensures |old(notified)| <= |notified| && notified[..|old(notified)|] == old(notified)
    {
      var i := 0;
      while i < |trace|
        invariant 0 <= i <= |trace|
        invariant Valid() && FromConfigured(subreddits, trace[..i])
        invariant Snapshot() == Replay(subreddits, old(Snapshot()), trace[..i])
        invariant |old(notified)| <= |notified| && notified[..|old(notified)|] == old(notified)
      {
        assert trace[i] in trace;
        Handle(trace[i]);
        assert trace[..i + 1][..i] == trace[..i];
        i := i + 1;
      }
      assert trace[..i] == trace;
      ReplayGrows(subreddits, old(Snapshot()), trace);
    }
  }
}
