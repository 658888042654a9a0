/**
  A one-shot event: a container that holds one (possibly absent) payload and
  hands it out to the first caller of Fire only. Every later Fire returns
  nothing, and IsFired reports whether that single transition has happened.

  The source guards the whole body of each public operation with one lock, so
  every call is one atomic step, and any run of concurrent calls behaves like
  some sequential order of them. The model is that sequential order: a `Trace`
  of calls, each applied in one step to the event's state.
 */
module OneShot {

  /** A nullable value: `None` is the source's `null`. */
  datatype Option<T> = None | Some(value: T)

  /** The event's state. The source marks "fired" by overwriting the payload
      with a private sentinel object; here the two states are tagged, so an
      absent payload can never be confused with the fired marker. */
  datatype Slot<T> = Unfired(pending: Option<T>) | Fired

  /** What one Fire call observed: it either claimed the pending payload
      (which may itself be absent) or found the event already spent. */
  datatype Outcome<T> = Claimed(payload: Option<T>) | Spent
  {
    /** The value the caller receives: the payload, or null once spent. */
    function Returned(): (r: Option<T>)
      ensures Spent? ==> r == None
    {
      match this
      case Claimed(v) => v
      case Spent => None
    }
  }

  /** The public operations of the event. */
  datatype Call = FireCall | IsFiredCall

  /** The answer to one call. For Fire it records the outcome, which tells a
      claim of an absent payload apart from a spent call. */
  datatype Reply<T> = FireReply(outcome: Outcome<T>) | IsFiredReply(fired: bool)

  /** One Fire call as an atomic step: the new state and the outcome. */
  function FireStep<T>(s: Slot<T>): (r: (Slot<T>, Outcome<T>))
    ensures r.0 == Fired
    ensures r.1.Claimed? <==> s.Unfired?
    ensures r.1.Claimed? ==> r.1.payload == s.pending
  {
    match s
    case Unfired(v) => (Fired, Claimed(v))
    case Fired => (Fired, Spent)
  }

  /** One call of either operation as an atomic step. A query leaves the
      state as it is and reports its tag; a fire always leaves it fired. */
  function Apply<T>(s: Slot<T>, c: Call): (r: (Slot<T>, Reply<T>))
    ensures c == IsFiredCall ==> r.0 == s && r.1 == IsFiredReply(s == Fired)
    ensures c == FireCall ==> r.0 == Fired && r.1.FireReply?
    ensures c == FireCall ==> (r.1.outcome.Claimed? <==> s.Unfired?)
  {
    match c
    case FireCall =>
      var (s', o) := FireStep(s);
      (s', FireReply(o))
    case IsFiredCall => (s, IsFiredReply(s.Fired?))
  }

  /** The state after a sequence of calls, and the reply to each call in order. */
  function Trace<T>(s: Slot<T>, calls: seq<Call>): (r: (Slot<T>, seq<Reply<T>>))
    ensures |r.1| == |calls|
    decreases |calls|
  {
    if calls == [] then (s, [])
    else
      var (mid, replies) := Trace(s, calls[..|calls| - 1]);
      var (next, reply) := Apply(mid, calls[|calls| - 1]);
      (next, replies + [reply])
  }

  /** True of the replies that handed out the payload. */
  predicate IsClaim<T>(r: Reply<T>)
  {
    r.FireReply? && r.outcome.Claimed?
  }

  /** How many replies handed out the payload. */
  function Claims<T>(replies: seq<Reply<T>>): (r: nat)
    ensures r <= |replies|
    decreases |replies|
  {
    if replies == [] then 0
    else Claims(replies[..|replies| - 1]) + (if IsClaim(replies[|replies| - 1]) then 1 else 0)
  }

  /** Only Fire changes the state, it always leaves the event fired, and
      nothing ever moves a fired event back. */
  lemma {:induction false} TraceState<T>(s: Slot<T>, calls: seq<Call>)
    ensures Trace(s, calls).0 == if FireCall in calls then Fired else s
    decreases |calls|
  {
    if calls != [] {
      var init := calls[..|calls| - 1];
      TraceState(s, init);
      assert calls == init + [calls[|calls| - 1]];
    }
  }

  /** The replies to a prefix of the calls are a prefix of the replies. */
  lemma {:induction false} TracePrefix<T>(s: Slot<T>, calls: seq<Call>, i: nat)
    requires i <= |calls|
    ensures Trace(s, calls[..i]).1 == Trace(s, calls).1[..i]
    decreases |calls|
  {
    if i < |calls| {
      var init := calls[..|calls| - 1];
      assert calls[..i] == init[..i];
      TracePrefix(s, init, i);
    } else {
      assert calls[..i] == calls;
    }
  }

  /** The reply to call i is that call applied to the state left by calls[..i]. */
  lemma ReplyAt<T>(s: Slot<T>, calls: seq<Call>, i: nat)
    requires i < |calls|
    ensures Trace(s, calls).1[i] == Apply(Trace(s, calls[..i]).0, calls[i]).1
  {
    var upto := calls[..i + 1];
    assert upto[..|upto| - 1] == calls[..i];
    TracePrefix(s, calls, i + 1);
  }

  /** Fire call i claims the payload exactly when the event started unfired
      and no earlier call was a Fire; it then receives the constructor's value.
      Every other Fire call is spent and returns null. */
  lemma FireReplyAt<T>(s: Slot<T>, calls: seq<Call>, i: nat)
    requires i < |calls| && calls[i] == FireCall
    ensures Trace(s, calls).1[i]
            == FireReply(if s.Unfired? && FireCall !in calls[..i] then Claimed(s.pending) else Spent)
  {
    ReplyAt(s, calls, i);
    TraceState(s, calls[..i]);
  }

  /** IsFired call i reports true exactly when the event started fired or some
      earlier call was a Fire; the query itself changes nothing. */
  lemma IsFiredReplyAt<T>(s: Slot<T>, calls: seq<Call>, i: nat)
    requires i < |calls| && calls[i] == IsFiredCall
    ensures Trace(s, calls).1[i] == IsFiredReply(s.Fired? || FireCall in calls[..i])
  {
    ReplyAt(s, calls, i);
    TraceState(s, calls[..i]);
  }

  /** Once IsFired has answered true, every later IsFired answers true. */
  lemma IsFiredMonotone<T>(s: Slot<T>, calls: seq<Call>, i: nat, j: nat)
    requires i <= j < |calls|
    requires calls[i] == IsFiredCall && calls[j] == IsFiredCall
    requires Trace(s, calls).1[i] == IsFiredReply(true)
    ensures Trace(s, calls).1[j] == IsFiredReply(true)
  {
    IsFiredReplyAt(s, calls, i);
    IsFiredReplyAt(s, calls, j);
    if !s.Fired? {
      var k :| 0 <= k < i && calls[..i][k] == FireCall;
      assert calls[..j][k] == FireCall;
    }
  }

  /** Over any sequence of calls, at most one call claims the payload, and
      exactly one does when the event starts unfired and some Fire happens. */
  lemma {:induction false} SingleWinner<T>(s: Slot<T>, calls: seq<Call>)
    ensures Claims(Trace(s, calls).1) == if s.Unfired? && FireCall in calls then 1 else 0
    decreases |calls|
  {
    if calls != [] {
      var init := calls[..|calls| - 1];
      var last := calls[|calls| - 1];
      assert calls == init + [last];
      SingleWinner(s, init);
      TraceState(s, init);
      var replies := Trace(s, calls).1;
      assert replies[..|replies| - 1] == Trace(s, init).1;
    }
  }

  /** N racing Fire calls on a fresh event holding v, in whatever order the
      lock admits them: the first receives v, every other one is spent and
      gets null, so v is handed out exactly once. */
  lemma RaceOfFires<T>(v: Option<T>, calls: seq<Call>)
    requires |calls| >= 1
    requires forall k :: 0 <= k < |calls| ==> calls[k] == FireCall
    ensures Trace(Unfired(v), calls).1[0] == FireReply(Claimed(v))
    ensures forall i :: 1 <= i < |calls| ==> Trace(Unfired(v), calls).1[i] == FireReply(Spent)
    ensures Claims(Trace(Unfired(v), calls).1) == 1
  {
    FireReplyAt(Unfired(v), calls, 0);
    forall i | 1 <= i < |calls|
      ensures Trace(Unfired(v), calls).1[i] == FireReply(Spent)
    {
      assert calls[..i][0] == FireCall;
      FireReplyAt(Unfired(v), calls, i);
    }
    SingleWinner(Unfired(v), calls);
  }

  /** An event built with a null payload still transitions: its first Fire
      returns null like a spent call would, yet it is the one claim, and the
      event is fired afterwards. */
  lemma NullPayloadTransitions<T>(calls: seq<Call>, i: nat)
    requires i < |calls| && calls[i] == FireCall && FireCall !in calls[..i]
    ensures Trace(Slot<T>.Unfired(None), calls).1[i] == FireReply(Claimed(None))
    ensures Trace(Slot<T>.Unfired(None), calls).1[i].outcome.Returned() == None
    ensures Trace(Slot<T>.Unfired(None), calls).0 == Fired
    ensures Claims(Trace(Slot<T>.Unfired(None), calls).1) == 1
  {
    FireReplyAt(Slot<T>.Unfired(None), calls, i);
    TraceState(Slot<T>.Unfired(None), calls);
    SingleWinner(Slot<T>.Unfired(None), calls);
  }

  /** The event object. `slot` is the source's mutable `data` field; the ghost
      fields record the constructor's payload and every call made so far, so
      that Valid() can tie the current state to the sequential Trace. */
  class OneShotEvent<T> {
    var slot: Slot<T>
    ghost const initial: Option<T>
    ghost var calls: seq<Call>
    ghost var replies: seq<Reply<T>>

    ghost predicate Valid()
      reads this
    {
      Trace(Unfired(initial), calls) == (slot, replies)
    }

    /** A fresh event holds the given payload and is not fired. */
    constructor (value: Option<T>)
      ensures Valid()
      ensures initial == value && calls == [] && replies == []
      ensures slot == Unfired(value)
    {
      slot := Unfired(value);
      initial := value;
      calls := [];
      replies := [];
    }

    /** Hands out the payload on the first call and null on every later one;
        the event is fired afterwards. */
    method Fire() returns (r: Option<T>)
      requires Valid()
      modifies this
      ensures Valid()
      ensures calls == old(calls) + [FireCall]
      ensures replies == old(replies) + [FireReply(FireStep(old(slot)).1)]
      ensures slot == Fired
      ensures r == if FireCall in old(calls) then None else initial
    {
      TraceState(Unfired(initial), calls);
      var outcome: Outcome<T>;
      if slot.Unfired? {
        outcome := Claimed(slot.pending);
        slot := Fired;
      } else {
        outcome := Spent;
      }
      r := outcome.Returned();
      ghost var before := calls;
      calls := calls + [FireCall];
      replies := replies + [FireReply(outcome)];
      assert calls[..|calls| - 1] == before;
    }

    /** Reports whether Fire has ever been called; the state is untouched
        (only the ghost call history grows). */
    method IsFired() returns (b: bool)
      requires Valid()
      modifies this`calls, this`replies
      ensures Valid()
      ensures calls == old(calls) + [IsFiredCall]
      ensures replies == old(replies) + [IsFiredReply(b)]
      ensures b <==> FireCall in old(calls)
    {
      TraceState(Unfired(initial), calls);
      b := slot.Fired?;
      ghost var before := calls;
      calls := calls + [IsFiredCall];
      replies := replies + [IsFiredReply(b)];
      assert calls[..|calls| - 1] == before;
    }
  }

  /** A caller's view of the object: Fire hands out the constructor's value
      once and null afterwards, and IsFired goes from false to true. With a
      null payload both Fire calls return null, yet the recorded replies show
      that only the first one claimed. */
  method FireTwice<T>(value: Option<T>) returns (before: bool, first: Option<T>, second: Option<T>, after: bool)
    ensures !before && after
    ensures first == value && second == None
  {
    var e := new OneShotEvent<T>(value);
    before := e.IsFired();
    first := e.Fire();
    second := e.Fire();
    after := e.IsFired();
    assert IsClaim(e.replies[1]) && !IsClaim(e.replies[2]);
  }
}
