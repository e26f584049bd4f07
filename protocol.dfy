/**
 * The value side of the scheduler-request protocol of requester.js: the
 * status, reason and priority constants, the wire messages that the
 * `to_msg` serialisers build, the snapshot of a request set, the merge of
 * scheduler feedback into a copy of it, and the bookkeeping that
 * reconciliation performs on the pending and allocated id lists.
 */
module Protocol {
  import opened Wrappers
  import opened Ids

  /** The shared topic every requester publishes its full request set on. */
  const SchedulerTopic: string := "/concert/scheduler/requests"
  /** The message type tag used for both publishing and feedback. */
  const MsgSchedulerRequest: string := "scheduler_msgs/SchedulerRequests"

  /** Request status; `Code` gives the integer sent on the wire. */
  datatype Status = New | Reserved | Waiting | Granted | Preempting | Canceling | Closed {
    function Code(): (c: int)
      ensures 0 <= c <= 6
    {
      match this
      case New => 0
      case Reserved => 1
      case Waiting => 2
      case Granted => 3
      case Preempting => 4
      case Canceling => 5
      case Closed => 6
    }
  }

  function StatusOfCode(c: int): (r: Option<Status>)
  {
    match c
    case 0 => Some(New)
    case 1 => Some(Reserved)
    case 2 => Some(Waiting)
    case 3 => Some(Granted)
    case 4 => Some(Preempting)
    case 5 => Some(Canceling)
    case 6 => Some(Closed)
    case _ => None
  }

  /** Reason accompanying a status; `Code` gives the integer sent on the wire. */
  datatype Reason = NoReason | Preempted | Busy | Unavailable | Timeout | Invalid {
    function Code(): (c: int)
      ensures 0 <= c <= 5
    {
      match this
      case NoReason => 0
      case Preempted => 1
      case Busy => 2
      case Unavailable => 3
      case Timeout => 4
      case Invalid => 5
    }
  }

  function ReasonOfCode(c: int): (r: Option<Reason>)
  {
    match c
    case 0 => Some(NoReason)
    case 1 => Some(Preempted)
    case 2 => Some(Busy)
    case 3 => Some(Unavailable)
    case 4 => Some(Timeout)
    case 5 => Some(Invalid)
    case _ => None
  }

  /** The status codes are exactly the integers 0 to 6, one per status. */
  lemma StatusCodes(s: Status, c: int)
    ensures StatusOfCode(s.Code()) == Some(s)
    ensures StatusOfCode(c) == Some(s) <==> s.Code() == c
    ensures StatusOfCode(c).None? <==> c < 0 || c > 6
  {
  }

  /** The reason codes are exactly the integers 0 to 5, one per reason. */
  lemma ReasonCodes(r: Reason, c: int)
    ensures ReasonOfCode(r.Code()) == Some(r)
    ensures ReasonOfCode(c) == Some(r) <==> r.Code() == c
    ensures ReasonOfCode(c).None? <==> c < 0 || c > 5
  {
  }

  const BackgroundPriority: int := -20000
  const LowPriority: int := -10000
  const DefaultPriority: int := 0
  const HighPriority: int := 10000
  const CriticalPriority: int := 20000

  /** One `{remap_from, remap_to}` entry of a resource. */
  datatype Remapping = Remapping(remapFrom: string, remapTo: string)
  /** One `{key, value}` entry of a resource. */
  datatype Parameter = Parameter(key: string, value: string)

  /** `Resource.to_msg`: rapp, uri, remappings and parameters, plus the id's wire form. */
  datatype ResourceMsg = ResourceMsg(
    rapp: Option<string>, uri: Option<string>,
    remappings: seq<Remapping>, parameters: seq<Parameter>, id: IdMsg)

  /** `Request.to_msg`: the protocol fields as integers, the id and the resources. */
  datatype RequestMsg = RequestMsg(
    status: int, reason: int, problem: string,
    availability: int, holdTime: int, priority: int,
    id: IdMsg, resources: seq<ResourceMsg>)

  /** `SchedulerRequests.to_msg`: the requester id and the requests in key order. */
  datatype SchedulerRequestsMsg = SchedulerRequestsMsg(requester: IdMsg, requests: seq<RequestMsg>)

  /** The state of one request, as a value. */
  datatype RequestState = RequestState(
    id: UniqueId, status: Status, reason: Reason, problem: string,
    availability: int, holdTime: int, priority: int, resources: seq<ResourceMsg>)

  /**
   * The state of a request set, as a value: the requester id, the keys in
   * the order the JavaScript object enumerates them, and the requests.
   */
  datatype RequestSetState = RequestSetState(
    requester: UniqueId, order: seq<string>, requests: map<string, RequestState>)

  /** The state of a freshly built request: NEW, no reason or problem, zero durations, default priority. */
  function NewRequestState(id: UniqueId, resources: seq<ResourceMsg>): (s: RequestState)
    ensures s.status.Code() == 0 && s.reason.Code() == 0 && s.priority == 0
  {
    RequestState(id, New, NoReason, "", 0, 0, DefaultPriority, resources)
  }

  predicate Distinct(s: seq<string>) {
    forall i, j :: 0 <= i < j < |s| ==> s[i] != s[j]
  }

  /**
   * The key discipline of a request set: the order lists every key once, and
   * each request is stored under the rendering of its own id.
   */
  ghost predicate WellKeyed(st: RequestSetState) {
    && Distinct(st.order)
    && (forall k :: k in st.requests <==> k in st.order)
    && forall k {:trigger Names(st.requests[k].id, k)} :: k in st.requests ==> Names(st.requests[k].id, k)
  }

  // ---------------------------------------------------------------------
  // Wire encoding and its partner decoder

  function EncodeRequest(s: RequestState): (m: RequestMsg)
    ensures 0 <= m.status <= 6 && 0 <= m.reason <= 5
  {
    RequestMsg(s.status.Code(), s.reason.Code(), s.problem, s.availability, s.holdTime,
               s.priority, s.id.ToMsg(), s.resources)
  }

  /** Reads a request back from the wire; None for an unknown status or reason code. */
  function DecodeRequest(m: RequestMsg): (r: Option<RequestState>)
    ensures r.Some? <==> StatusOfCode(m.status).Some? && ReasonOfCode(m.reason).Some?
  {
    match (StatusOfCode(m.status), ReasonOfCode(m.reason))
    case (Some(st), Some(rs)) =>
      Some(RequestState(UniqueId(m.id.uuid), st, rs, m.problem, m.availability, m.holdTime,
                        m.priority, m.resources))
    case _ => None
  }

  lemma DecodeEncodeRequest(s: RequestState)
    ensures DecodeRequest(EncodeRequest(s)) == Some(s)
  {
    StatusCodes(s.status, s.status.Code());
    ReasonCodes(s.reason, s.reason.Code());
  }

  /** The requests of `order`, encoded one by one in that order. */
  function EncodeRequests(order: seq<string>, rs: map<string, RequestState>): (ms: seq<RequestMsg>)
    requires forall k :: k in order ==> k in rs
    ensures |ms| == |order|
    ensures forall i :: 0 <= i < |order| ==> ms[i] == EncodeRequest(rs[order[i]])
  {
    if order == [] then [] else [EncodeRequest(rs[order[0]])] + EncodeRequests(order[1..], rs)
  }

  function EncodeSet(st: RequestSetState): (m: SchedulerRequestsMsg)
    requires forall k :: k in st.order ==> k in st.requests
    ensures |m.requests| == |st.order|
    ensures forall i :: 0 <= i < |st.order| ==> m.requests[i] == EncodeRequest(st.requests[st.order[i]])
  {
    SchedulerRequestsMsg(st.requester.ToMsg(), EncodeRequests(st.order, st.requests))
  }

  /**
   * Reads a list of requests back, keying each by its rendered id. None when
   * a code is unknown, an id is not 16 bytes, or an id occurs twice.
   */
  function DecodeRequests(ms: seq<RequestMsg>): (r: Option<(seq<string>, map<string, RequestState>)>)
  {
    if ms == [] then Some(([], map[]))
    else
      match (DecodeRequest(ms[0]), DecodeRequests(ms[1..]))
      case (Some(s), Some((order, rs))) =>
        if s.id.WellFormed() && s.id.ToString() !in rs then
          Some(([s.id.ToString()] + order, rs[s.id.ToString() := s]))
        else None
      case _ => None
  }

  function DecodeSet(m: SchedulerRequestsMsg): (r: Option<RequestSetState>)
  {
    match DecodeRequests(m.requests)
    case Some((order, rs)) => Some(RequestSetState(UniqueId(m.requester.uuid), order, rs))
    case None => None
  }

  /** The requests of `rs` whose keys occur in `order`. */
  function Restrict(order: seq<string>, rs: map<string, RequestState>): (r: map<string, RequestState>)
    requires forall k :: k in order ==> k in rs
    ensures forall k :: k in r <==> k in order
  {
    map k | k in order :: rs[k]
  }

  lemma RestrictCons(order: seq<string>, rs: map<string, RequestState>)
    requires order != [] && forall k :: k in order ==> k in rs
    ensures Restrict(order, rs) == Restrict(order[1..], rs)[order[0] := rs[order[0]]]
  {
    assert forall k :: k in order <==> k == order[0] || k in order[1..] by {
      assert order == [order[0]] + order[1..];
    }
  }

  lemma DistinctTail(order: seq<string>)
    requires order != [] && Distinct(order)
    ensures Distinct(order[1..]) && order[0] !in order[1..]
  {
    forall i, j | 0 <= i < j < |order[1..]| ensures order[1..][i] != order[1..][j] {
      assert order[1..][i] == order[i + 1] && order[1..][j] == order[j + 1];
    }
  }

  lemma EncodeRequestsCons(order: seq<string>, rs: map<string, RequestState>)
    requires order != [] && forall k :: k in order ==> k in rs
    ensures EncodeRequests(order, rs)[0] == EncodeRequest(rs[order[0]])
    ensures EncodeRequests(order, rs)[1..] == EncodeRequests(order[1..], rs)
  {
    assert EncodeRequests(order, rs) == [EncodeRequest(rs[order[0]])] + EncodeRequests(order[1..], rs);
  }

  lemma DecodeRequestsCons(ms: seq<RequestMsg>, k: string, s: RequestState, order: seq<string>, rs: map<string, RequestState>)
    requires ms != [] && DecodeRequest(ms[0]) == Some(s) && DecodeRequests(ms[1..]) == Some((order, rs))
    requires Names(s.id, k) && k !in rs
    ensures DecodeRequests(ms) == Some(([k] + order, rs[k := s]))
  {
  }

  lemma {:induction false} DecodeEncodeRequests(order: seq<string>, rs: map<string, RequestState>)
    requires Distinct(order)
    requires forall k :: k in order ==> k in rs && Names(rs[k].id, k)
    ensures DecodeRequests(EncodeRequests(order, rs)) == Some((order, Restrict(order, rs)))
  {
    if order == [] {
      assert Restrict(order, rs) == map[];
    } else {
      DistinctTail(order);
      assert order[0] in order;
      DecodeEncodeRequests(order[1..], rs);
      DecodeEncodeRequestsStep(order, rs);
    }
  }

  /** One more request in front: its message decodes to it and is stored under its key. */
  lemma DecodeEncodeRequestsStep(order: seq<string>, rs: map<string, RequestState>)
    requires order != [] && forall k :: k in order ==> k in rs
    requires Names(rs[order[0]].id, order[0]) && order[0] !in order[1..]
    requires DecodeRequests(EncodeRequests(order[1..], rs)) == Some((order[1..], Restrict(order[1..], rs)))
    ensures DecodeRequests(EncodeRequests(order, rs)) == Some((order, Restrict(order, rs)))
  {
    var k := order[0];
    var ms := EncodeRequests(order, rs);
    var tail := Restrict(order[1..], rs);
    EncodeRequestsCons(order, rs);
    DecodeEncodeRequest(rs[k]);
    DecodeRequestsCons(ms, k, rs[k], order[1..], tail);
    RestrictCons(order, rs);
    assert [k] + order[1..] == order;
  }

  /** Decoding the published message of a well-keyed request set gives the set back. */
  lemma DecodeEncodeSet(st: RequestSetState)
    requires WellKeyed(st)
    ensures DecodeSet(EncodeSet(st)) == Some(st)
  {
    var r := Restrict(st.order, st.requests);
    assert r == st.requests by {
      assert forall k :: k in r <==> k in st.requests;
    }
    DecodeEncodeRequests(st.order, st.requests);
    var m := EncodeSet(st);
    assert DecodeRequests(m.requests) == Some((st.order, st.requests));
    assert UniqueId(m.requester.uuid) == st.requester;
  }

  // ---------------------------------------------------------------------
  // Feedback merge

  /** The fields of one request that scheduler feedback carries. */
  datatype Feedback = Feedback(status: Status, reason: Reason, problem: string, availability: int)

  /** One request with the feedback's fields written over its own. */
  function ApplyFeedback(s: RequestState, f: Feedback): (r: RequestState)
  {
    s.(status := f.status, reason := f.reason, problem := f.problem, availability := f.availability)
  }

  /**
   * `SchedulerRequests.merge`: a copy of the set in which every request that
   * the feedback names takes the feedback's fields; feedback for an id the
   * set does not hold is dropped.
   */
  function Merge(st: RequestSetState, fb: map<string, Feedback>): (r: RequestSetState)
    ensures r.requester == st.requester && r.order == st.order && r.requests.Keys == st.requests.Keys
  {
    st.(requests := map k | k in st.requests :: if k in fb then ApplyFeedback(st.requests[k], fb[k]) else st.requests[k])
  }

  /**
   * What a merge does, key by key: the key set, order and requester stay;
   * a request named by the feedback takes its four fields and keeps its id,
   * resources, hold time and priority; any other request is unchanged.
   */
  lemma MergeEffect(st: RequestSetState, fb: map<string, Feedback>, k: string)
    ensures Merge(st, fb).requester == st.requester && Merge(st, fb).order == st.order
    ensures k in Merge(st, fb).requests <==> k in st.requests
    ensures k in st.requests && k !in fb ==> Merge(st, fb).requests[k] == st.requests[k]
    ensures k in st.requests && k in fb ==>
      var r, s, f := Merge(st, fb).requests[k], st.requests[k], fb[k];
      && r.status == f.status && r.reason == f.reason && r.problem == f.problem && r.availability == f.availability
      && r.id == s.id && r.resources == s.resources && r.holdTime == s.holdTime && r.priority == s.priority
  {
  }

  /**
   * A set with the same requester, order and keys as `before`, in which each
   * request named by the feedback has taken it and every other is as it was,
   * is the merge of the feedback into `before`.
   */
  lemma MergeOfStates(before: RequestSetState, now: RequestSetState, fb: map<string, Feedback>)
    requires now.requester == before.requester && now.order == before.order
    requires forall k :: k in before.requests <==> k in now.requests
    requires forall k :: k in now.requests ==>
      now.requests[k] == if k in fb then ApplyFeedback(before.requests[k], fb[k]) else before.requests[k]
    ensures now == Merge(before, fb)
  {
    assert now.requests == Merge(before, fb).requests;
  }

  /** Merging the same feedback twice gives what merging it once gives. */
  lemma MergeIdempotent(st: RequestSetState, fb: map<string, Feedback>)
    ensures Merge(Merge(st, fb), fb) == Merge(st, fb)
  {
    var once := Merge(st, fb);
    var twice := Merge(once, fb);
    assert twice.requests == once.requests;
  }

  /** A merge keeps the key discipline: feedback never moves a request to another key. */
  lemma MergeKeepsWellKeyed(st: RequestSetState, fb: map<string, Feedback>)
    requires WellKeyed(st)
    ensures WellKeyed(Merge(st, fb))
  {
    var r := Merge(st, fb);
    forall k | k in r.requests ensures r.requests[k].id == st.requests[k].id {
      MergeEffect(st, fb, k);
    }
  }

  /** The ids whose request differs between two snapshots of the same set. */
  function ChangedIds(prev: RequestSetState, next: RequestSetState): (r: set<string>)
    ensures forall k :: k in r ==> k in prev.requests && k in next.requests
  {
    set k | k in prev.requests && k in next.requests && prev.requests[k] != next.requests[k]
  }

  /**
   * A merge changes the set exactly when some id that the set holds gets
   * feedback that differs from its current fields; the changed ids are those.
   */
  lemma MergeChanges(st: RequestSetState, fb: map<string, Feedback>)
    ensures ChangedIds(st, Merge(st, fb)) ==
      set k | k in st.requests && k in fb && ApplyFeedback(st.requests[k], fb[k]) != st.requests[k]
    ensures Merge(st, fb) != st <==> ChangedIds(st, Merge(st, fb)) != {}
  {
    var m := Merge(st, fb);
    if m != st {
      assert m.requests != st.requests;
      assert m.requests.Keys == st.requests.Keys;
      var k :| k in st.requests && m.requests[k] != st.requests[k];
      assert k in ChangedIds(st, m);
    }
  }

  // ---------------------------------------------------------------------
  // Cancellation

  /** `Request.cancel`: the status becomes CANCELING whatever it was. */
  function CancelState(s: RequestState): (r: RequestState)
    ensures r.status == Canceling && r.(status := s.status) == s
  {
    s.(status := Canceling)
  }

  /** `SchedulerRequests.cancel_all`: every request of the set cancelled. */
  function CancelAllState(st: RequestSetState): (r: RequestSetState)
    ensures r.requester == st.requester && r.order == st.order && r.requests.Keys == st.requests.Keys
    ensures forall k :: k in r.requests ==> r.requests[k].status == Canceling
  {
    st.(requests := map k | k in st.requests :: CancelState(st.requests[k]))
  }

  /**
   * After cancelling all, the keys, order and requester are the same, every
   * request is CANCELING (even one that was CLOSED), and every other field of
   * every request is as it was.
   */
  lemma CancelAllEffect(st: RequestSetState, k: string)
    ensures CancelAllState(st).requester == st.requester && CancelAllState(st).order == st.order
    ensures k in CancelAllState(st).requests <==> k in st.requests
    ensures k in st.requests ==>
      var r, s := CancelAllState(st).requests[k], st.requests[k];
      r.status == Canceling && r == s.(status := Canceling)
  {
  }

  /** Cancelling all a second time changes nothing, and keeps the key discipline. */
  lemma CancelAllIdempotent(st: RequestSetState)
    ensures CancelAllState(CancelAllState(st)) == CancelAllState(st)
    ensures WellKeyed(st) ==> WellKeyed(CancelAllState(st))
  {
    var once := CancelAllState(st);
    assert CancelAllState(once).requests == once.requests;
  }

  // ---------------------------------------------------------------------
  // Reconciliation of the pending and allocated id lists

  /** `_.pull(xs, x)`: every occurrence of `x` removed, the rest in order. */
  function Pull(xs: seq<string>, x: string): (r: seq<string>)
    ensures x !in r
  {
    if xs == [] then [] else (if xs[0] == x then [] else [xs[0]]) + Pull(xs[1..], x)
  }

  /** `xs` without any element of `drop`, the rest in order. */
  function Without(xs: seq<string>, drop: set<string>): (r: seq<string>)
  {
    if xs == [] then [] else (if xs[0] in drop then [] else [xs[0]]) + Without(xs[1..], drop)
  }

  /** Removing elements never adds any: each element keeps at most its count, and exactly it unless dropped. */
  lemma {:induction false} WithoutCounts(xs: seq<string>, drop: set<string>, x: string)
    ensures multiset(Without(xs, drop))[x] == if x in drop then 0 else multiset(xs)[x]
    ensures x in Without(xs, drop) <==> x in xs && x !in drop
  {
    if xs != [] {
      WithoutCounts(xs[1..], drop, x);
      assert xs == [xs[0]] + xs[1..];
    }
  }

  lemma {:induction false} PullWithout(xs: seq<string>, drop: set<string>, x: string)
    ensures Pull(Without(xs, drop), x) == Without(xs, drop + {x})
  {
    if xs != [] {
      PullWithout(xs[1..], drop, x);
      var w := Without(xs, drop);
      if xs[0] in drop {
        assert w == Without(xs[1..], drop);
      } else {
        assert w == [xs[0]] + Without(xs[1..], drop);
        assert w[1..] == Without(xs[1..], drop);
      }
    }
  }

  lemma {:induction false} WithoutNothing(xs: seq<string>)
    ensures Without(xs, {}) == xs
  {
    if xs != [] {
      WithoutNothing(xs[1..]);
      assert xs == [xs[0]] + xs[1..];
    }
  }

  /** The ids that reconciliation takes out of `pending`: granted or closed. */
  function ResolvedIds(statuses: map<string, Status>): set<string>
  {
    set k | k in statuses && (statuses[k] == Granted || statuses[k] == Closed)
  }

  /** The ids that reconciliation takes out of `allocated`: closed. */
  function ClosedIds(statuses: map<string, Status>): set<string>
  {
    set k | k in statuses && statuses[k] == Closed
  }

  /**
   * The pending list after reconciliation. An id stays exactly when it was
   * pending and its request is neither granted nor closed, and nothing is added.
   */
  function PendingAfter(pendingIds: seq<string>, statuses: map<string, Status>): (r: seq<string>)
    ensures forall x :: x in r <==> x in pendingIds && !(x in statuses && statuses[x] in {Granted, Closed})
    ensures multiset(r) <= multiset(pendingIds)
  {
    var r := Without(pendingIds, ResolvedIds(statuses));
    forall x ensures (x in r <==> x in pendingIds && x !in ResolvedIds(statuses))
                  && multiset(r)[x] <= multiset(pendingIds)[x] {
      WithoutCounts(pendingIds, ResolvedIds(statuses), x);
    }
    r
  }

  /**
   * The allocated list after reconciliation. An id stays exactly when it was
   * allocated and its request is not closed, and nothing is added.
   */
  function AllocatedAfter(allocatedIds: seq<string>, statuses: map<string, Status>): (r: seq<string>)
    ensures forall x :: x in r <==> x in allocatedIds && !(x in statuses && statuses[x] == Closed)
    ensures multiset(r) <= multiset(allocatedIds)
  {
    var r := Without(allocatedIds, ClosedIds(statuses));
    forall x ensures (x in r <==> x in allocatedIds && x !in ClosedIds(statuses))
                  && multiset(r)[x] <= multiset(allocatedIds)[x] {
      WithoutCounts(allocatedIds, ClosedIds(statuses), x);
    }
    r
  }

  /**
   * Reconciliation only ever removes: an id of any status other than granted
   * or closed keeps its place and count in both lists.
   */
  lemma ReconcileKeepsUnresolved(pendingIds: seq<string>, allocatedIds: seq<string>, statuses: map<string, Status>, x: string)
    requires x !in statuses || statuses[x] !in {Granted, Closed}
    ensures multiset(PendingAfter(pendingIds, statuses))[x] == multiset(pendingIds)[x]
    ensures multiset(AllocatedAfter(allocatedIds, statuses))[x] == multiset(allocatedIds)[x]
  {
    WithoutCounts(pendingIds, ResolvedIds(statuses), x);
    WithoutCounts(allocatedIds, ClosedIds(statuses), x);
  }

  /** A granted id leaves `pending` and keeps its place and count in `allocated`. */
  lemma ReconcileGranted(pendingIds: seq<string>, allocatedIds: seq<string>, statuses: map<string, Status>, x: string)
    requires x in statuses && statuses[x] == Granted
    ensures x !in PendingAfter(pendingIds, statuses)
    ensures multiset(AllocatedAfter(allocatedIds, statuses))[x] == multiset(allocatedIds)[x]
  {
    WithoutCounts(allocatedIds, ClosedIds(statuses), x);
  }

  /** The intended condition that ends the release wait: the id has left `allocated`. */
  predicate ReleaseSettled(allocatedIds: seq<string>, reqId: string) {
    reqId !in allocatedIds
  }

  /**
   * The release wait ends exactly when the id was not allocated or feedback
   * reports its request CLOSED.
   */
  lemma ReleaseSettledByClosedFeedback(allocatedIds: seq<string>, statuses: map<string, Status>, reqId: string)
    ensures ReleaseSettled(AllocatedAfter(allocatedIds, statuses), reqId) <==>
      reqId !in allocatedIds || (reqId in statuses && statuses[reqId] == Closed)
  {
  }

  /** The name of the per-requester feedback topic: `[SCHEDULER_TOPIC, id].join("_")`. */
  function FeedbackTopic(id: UniqueId): (t: string)
    requires id.WellFormed()
    ensures |t| == |SchedulerTopic| + 33
    ensures t[..|SchedulerTopic| + 1] == SchedulerTopic + "_"
    ensures t[|SchedulerTopic| + 1..] == id.ToString()
  {
    SchedulerTopic + "_" + id.ToString()
  }

  /** Distinct requesters listen on distinct feedback topics. */
  lemma FeedbackTopicInjective(a: UniqueId, b: UniqueId)
    requires a.WellFormed() && b.WellFormed()
    ensures FeedbackTopic(a) == FeedbackTopic(b) <==> a == b
  {
    if FeedbackTopic(a) == FeedbackTopic(b) {
      var n := |SchedulerTopic| + 1;
      assert FeedbackTopic(a)[n..] == a.ToString();
      assert FeedbackTopic(b)[n..] == b.ToString();
      ToStringInjective(a, b);
    }
  }

  // Three places where requester.js does not do what its callers rely on.
  // Each is stated as written, with the input that shows it; the model uses
  // the corrected behaviour.

  /**
   * As written, `new_request` returns node-uuid's `unparse` of the
   * `UniqueId` object itself instead of its bytes. `unparse` looks up
   * entries 0 to 15 of its argument in its byte-to-hex table and adds the
   * sixteen results left to right with `+`, putting "-" after the 4th, 6th,
   * 8th and 10th. The object has no such entries, so every lookup gives
   * `undefined`. These are the JavaScript values that chain of `+` meets.
   */
  datatype JsValue = Undefined | NotANumber | Str(s: string)

  /** The string form `+` gives a value when the other side is a string. */
  function JsString(v: JsValue): string {
    match v
    case Undefined => "undefined"
    case NotANumber => "NaN"
    case Str(s) => s
  }

  /** JavaScript's `+`: a string on either side concatenates, otherwise it adds numbers, and `undefined` or NaN gives NaN. */
  function JsAdd(a: JsValue, b: JsValue): JsValue {
    if a.Str? || b.Str? then Str(JsString(a) + JsString(b)) else NotANumber
  }

  /** `t0 + t1 + ... + tn`, evaluated left to right. */
  function SumLeft(ts: seq<JsValue>): JsValue
    requires ts != []
  {
    if |ts| == 1 then ts[0] else JsAdd(SumLeft(ts[..|ts| - 1]), ts[|ts| - 1])
  }

  /** The string forms of some values, joined. */
  function JsStrings(ts: seq<JsValue>): string {
    if ts == [] then "" else JsStrings(ts[..|ts| - 1]) + JsString(ts[|ts| - 1])
  }

  /** The operands of `unparse`'s chain, given its sixteen table lookups. */
  function UnparseOperands(xs: seq<JsValue>): seq<JsValue>
    requires |xs| == 16
  {
    xs[..4] + [Str("-")] + xs[4..6] + [Str("-")] + xs[6..8] + [Str("-")] + xs[8..10] + [Str("-")] + xs[10..]
  }

  /** `n` lookups that found nothing. */
  function Undefineds(n: nat): seq<JsValue> {
    seq(n, _ => Undefined)
  }

  /** The text `new_request` returns as written, whatever random bytes the new id got. */
  function NewRequestIdAsWritten(): string {
    JsString(SumLeft(UnparseOperands(Undefineds(16))))
  }

  /** Once the running sum is a string, each further operand appends its string form. */
  lemma {:induction false} SumAfterText(ts: seq<JsValue>, us: seq<JsValue>)
    requires ts != [] && SumLeft(ts).Str?
    ensures SumLeft(ts + us) == Str(SumLeft(ts).s + JsStrings(us))
  {
    if us == [] {
      assert ts + us == ts;
    } else {
      var n := |us| - 1;
      SumAfterText(ts, us[..n]);
      assert (ts + us)[..|ts + us| - 1] == ts + us[..n];
      ConcatAssoc(SumLeft(ts).s, JsStrings(us[..n]), JsString(us[n]));
    }
  }

  /** Adding two or more `undefined`s gives NaN. */
  lemma {:induction false} SumOfUndefineds(n: nat)
    requires n >= 2
    ensures SumLeft(Undefineds(n)) == NotANumber
  {
    assert Undefineds(n)[..n - 1] == Undefineds(n - 1);
    if n > 2 {
      SumOfUndefineds(n - 1);
    } else {
      assert Undefineds(1) == [Undefined];
    }
  }

  lemma {:induction false} JsStringsAppend(a: seq<JsValue>, b: seq<JsValue>)
    ensures JsStrings(a + b) == JsStrings(a) + JsStrings(b)
  {
    if b == [] {
      assert a + b == a;
    } else {
      var n := |b| - 1;
      JsStringsAppend(a, b[..n]);
      assert (a + b)[..|a + b| - 1] == a + b[..n];
      ConcatAssoc(JsStrings(a), JsStrings(b[..n]), JsString(b[n]));
    }
  }

  /** `n` copies of `w`, joined. */
  function Repeated(w: string, n: nat): string {
    if n == 0 then "" else Repeated(w, n - 1) + w
  }

  lemma {:induction false} UndefinedsText(n: nat)
    ensures JsStrings(Undefineds(n)) == Repeated("undefined", n)
  {
    if n > 0 {
      UndefinedsText(n - 1);
      assert Undefineds(n)[..n - 1] == Undefineds(n - 1);
    }
  }

  /** Appending `n` lookups that found nothing to a string sum appends "undefined" `n` times. */
  lemma SumThenUndefineds(ts: seq<JsValue>, n: nat)
    requires ts != [] && SumLeft(ts).Str?
    ensures SumLeft(ts + Undefineds(n)) == Str(SumLeft(ts).s + Repeated("undefined", n))
  {
    SumAfterText(ts, Undefineds(n));
    UndefinedsText(n);
  }

  /** Appending a hyphen to a string sum appends "-". */
  lemma SumThenHyphen(ts: seq<JsValue>)
    requires ts != [] && SumLeft(ts).Str?
    ensures SumLeft(ts + [Str("-")]) == Str(SumLeft(ts).s + "-")
  {
    assert (ts + [Str("-")])[..|ts|] == ts;
  }

  /**
   * Every call returns the same text: the first four lookups add up to NaN,
   * the hyphen turns the sum into a string, and each later lookup appends
   * the word "undefined".
   */
  lemma NewRequestIdAsWrittenText()
    ensures NewRequestIdAsWritten() ==
      "NaN-" + Repeated("undefined", 2) + "-" + Repeated("undefined", 2) + "-"
      + Repeated("undefined", 2) + "-" + Repeated("undefined", 6)
  {
    var dash := [Str("-")];
    var p1 := Undefineds(4) + dash;
    var p2 := p1 + Undefineds(2);
    var p3 := p2 + dash;
    var p4 := p3 + Undefineds(2);
    var p5 := p4 + dash;
    var p6 := p5 + Undefineds(2);
    var p7 := p6 + dash;
    var p8 := p7 + Undefineds(6);
    assert UnparseOperands(Undefineds(16)) == p8;
    SumOfUndefineds(4);
    assert p1[..4] == Undefineds(4);
    assert SumLeft(p1) == Str("NaN-");
    SumThenUndefineds(p1, 2);
    SumThenHyphen(p2);
    SumThenUndefineds(p3, 2);
    SumThenHyphen(p4);
    SumThenUndefineds(p5, 2);
    SumThenHyphen(p6);
    SumThenUndefineds(p7, 6);
  }

  /** The text as written starts with "NaN-", so it holds a hyphen. */
  lemma AsWrittenHasHyphen()
    ensures '-' in NewRequestIdAsWritten()
  {
    var p1 := Undefineds(4) + [Str("-")];
    var ops := UnparseOperands(Undefineds(16));
    assert ops == p1 + ops[5..];
    SumOfUndefineds(4);
    assert p1[..4] == Undefineds(4);
    SumAfterText(p1, ops[5..]);
    assert NewRequestIdAsWritten()[3] == '-';
  }

  /**
   * The id returned as written is never a key of the request set, so
   * feedback can never resolve it and the allocation wait never ends.
   */
  lemma AsWrittenIdNeverResolves(pendingIds: seq<string>, statuses: map<string, Status>)
    requires NewRequestIdAsWritten() in pendingIds
    requires forall k :: k in statuses ==> '-' !in k
    ensures NewRequestIdAsWritten() !in statuses
    ensures NewRequestIdAsWritten() in PendingAfter(pendingIds, statuses)
  {
    AsWrittenHasHyphen();
  }

  /** `n` copies of `x` after `xs` add `n` to the count of `x`. */
  lemma {:induction false} CopiesCount(xs: seq<string>, x: string, n: nat)
    ensures multiset(xs + seq(n, _ => x))[x] == multiset(xs)[x] + n
  {
    if n > 0 {
      CopiesCount(xs, x, n - 1);
      assert xs + seq(n, _ => x) == (xs + seq(n - 1, _ => x)) + [x];
    } else {
      assert xs + seq(n, _ => x) == xs;
    }
  }

  /**
   * `send_allocation_request` pushes the returned id onto `pending`. As
   * written, `n` calls push `n` copies of the same text, and feedback on
   * any set of well-formed keys removes none of them.
   */
  lemma AsWrittenIdsPileUp(pendingIds: seq<string>, n: nat, statuses: map<string, Status>)
    requires forall k :: k in statuses ==> '-' !in k
    ensures multiset(PendingAfter(pendingIds + seq(n, _ => NewRequestIdAsWritten()), statuses))[NewRequestIdAsWritten()]
      == multiset(pendingIds)[NewRequestIdAsWritten()] + n
  {
    AsWrittenHasHyphen();
    var x := NewRequestIdAsWritten();
    assert x !in statuses;
    CopiesCount(pendingIds, x, n);
    ReconcileKeepsUnresolved(pendingIds + seq(n, _ => x), [], statuses, x);
  }

  /** Every rendered id, hence every key of a well-keyed set, is free of hyphens. */
  lemma KeysHaveNoHyphen(st: RequestSetState)
    requires WellKeyed(st)
    ensures forall k :: k in st.requests ==> '-' !in k
  {
    forall k | k in st.requests ensures '-' !in k {
      assert Names(st.requests[k].id, k);
      var t := st.requests[k].id.ToString();
      assert IsCanonicalText(t);
    }
  }

  /**
   * As written, `send_releasing_request` indexes the `SchedulerRequests`
   * object itself rather than its `requests` map. The names such a lookup
   * can find: the object's own fields, its prototype's methods and those of
   * `Object.prototype`.
   */
  const ContainerProperties: set<string> :=
    {"requester", "requests", "add_request", "to_msg", "deepClone", "merge", "cancel_all",
     "constructor", "hasOwnProperty", "isPrototypeOf", "propertyIsEnumerable",
     "toLocaleString", "toString", "valueOf"}

  /** Whether the lookup as written finds anything under `reqId`. */
  predicate ReleaseTargetFoundAsWritten(reqId: string) {
    reqId in ContainerProperties
  }

  /**
   * No stored request's key (32 characters), nor the 36-character id
   * `new_request` returns as written, names a property of the container:
   * the lookup gives `undefined` and `cancel()` on it throws.
   */
  lemma ReleaseLookupAsWrittenFails(reqId: string)
    requires |reqId| >= 32
    ensures !ReleaseTargetFoundAsWritten(reqId)
  {
  }

  /** As written, the release wait ends once the id is IN `allocated`. */
  predicate ReleaseSettledAsWritten(allocatedIds: seq<string>, reqId: string) {
    reqId in allocatedIds
  }

  /**
   * The allocation wait leaves the id in `allocated`, so the release wait as
   * written ends before the scheduler has answered; and once CLOSED feedback
   * has taken the id out, it would never end.
   */
  lemma ReleaseWaitAsWritten(allocatedIds: seq<string>, statuses: map<string, Status>, reqId: string)
    requires reqId in statuses && statuses[reqId] == Closed
    ensures ReleaseSettledAsWritten(allocatedIds + [reqId], reqId)
    ensures !ReleaseSettled(allocatedIds + [reqId], reqId)
    ensures !ReleaseSettledAsWritten(AllocatedAfter(allocatedIds + [reqId], statuses), reqId)
    ensures ReleaseSettled(AllocatedAfter(allocatedIds + [reqId], statuses), reqId)
  {
    assert (allocatedIds + [reqId])[|allocatedIds|] == reqId;
  }
}
