/**
 * The stateful objects of requester.js: `Resource`, `Request`,
 * `SchedulerRequests` and `Requester`. Each method states its new state in
 * terms of the value functions of module Protocol, whose properties are
 * proved there.
 */
module Requests {
  import opened Wrappers
  import opened Ids
  import opened Protocol

  /** One capability asked of the scheduler; its lists are appended to in order. */
  class Resource {
    const id: UniqueId
    var rapp: Option<string>
    var uri: Option<string>
    var remappings: seq<Remapping>
    var parameters: seq<Parameter>

    /** `new Resource()`: a fresh id (`random`), no rapp or uri, empty lists. */
    constructor (random: Uuid)
      ensures id == UniqueId(random) && rapp == None && uri == None
      ensures remappings == [] && parameters == []
    {
      id := UniqueId(random);
      rapp, uri := None, None;
      remappings, parameters := [], [];
    }

    method AddRemapping(from: string, to: string)
      modifies this
      ensures remappings == old(remappings) + [Remapping(from, to)]
      ensures parameters == old(parameters) && rapp == old(rapp) && uri == old(uri)
    {
      remappings := remappings + [Remapping(from, to)];
    }

    method AddParameter(key: string, value: string)
      modifies this
      ensures parameters == old(parameters) + [Parameter(key, value)]
      ensures remappings == old(remappings) && rapp == old(rapp) && uri == old(uri)
    {
      parameters := parameters + [Parameter(key, value)];
    }

    /** `to_msg`: the four picked fields and the id's wire form. */
    function ToMsg(): (m: ResourceMsg)
      reads this
      ensures m.rapp == rapp && m.uri == uri && m.remappings == remappings
      ensures m.parameters == parameters && m.id.uuid == id.bytes
    {
      ResourceMsg(rapp, uri, remappings, parameters, id.ToMsg())
    }
  }

  function ResourceMsgs(rs: seq<Resource>): (ms: seq<ResourceMsg>)
    reads rs
    ensures |ms| == |rs| && forall i :: 0 <= i < |rs| ==> ms[i] == rs[i].ToMsg()
  {
    if rs == [] then [] else [rs[0].ToMsg()] + ResourceMsgs(rs[1..])
  }

  twostate lemma {:induction false} ResourceMsgsUnchanged(rs: seq<Resource>)
    requires forall x :: x in rs ==> unchanged(x)
    ensures ResourceMsgs(rs) == old(ResourceMsgs(rs))
  {
    if rs != [] {
      assert rs[0] in rs;
      assert forall x :: x in rs[1..] ==> x in rs;
      ResourceMsgsUnchanged(rs[1..]);
    }
  }

  /**
   * A request whose resource list and resources are as they were has the old
   * state with its current scalar fields.
   */
  twostate lemma StateParts(r: Request)
    requires r.resources == old(r.resources)
    requires forall x :: x in r.resources ==> unchanged(x)
    ensures r.State() == old(r.State()).(status := r.status, reason := r.reason, problem := r.problem,
                                         availability := r.availability, holdTime := r.holdTime,
                                         priority := r.priority)
  {
    ResourceMsgsUnchanged(r.resources);
  }

  /** One allocation request and its protocol state. */
  class Request {
    const id: UniqueId
    var resources: seq<Resource>
    var status: Status
    var reason: Reason
    var problem: string
    var availability: int
    var holdTime: int
    var priority: int

    /** `new Request()`: a fresh id (`random`), no resources, NEW, no reason, default priority. */
    constructor (random: Uuid)
      ensures id == UniqueId(random) && resources == []
      ensures status == New && status.Code() == 0 && reason == NoReason && reason.Code() == 0
      ensures problem == "" && availability == 0 && holdTime == 0 && priority == DefaultPriority
    {
      id := UniqueId(random);
      resources := [];
      status, reason, problem := New, NoReason, "";
      availability, holdTime, priority := 0, 0, DefaultPriority;
    }

    function State(): (s: RequestState)
      reads this, resources
    {
      RequestState(id, status, reason, problem, availability, holdTime, priority, ResourceMsgs(resources))
    }

    /** `cancel`: CANCELING whatever the prior status, CLOSED included; nothing else changes. */
    method Cancel()
      modifies this
      ensures status == Canceling && SameButStatus(this)
    {
      status := Canceling;
    }

    /** `to_msg`: the wire form, from which the request's state can be read back. */
    function ToMsg(): (m: RequestMsg)
      reads this, resources
      ensures DecodeRequest(m) == Some(State())
    {
      DecodeEncodeRequest(State());
      EncodeRequest(State())
    }
  }

  /** `SchedulerRequests`: the requests of one requester, keyed by rendered request id. */
  class SchedulerRequests {
    const requester: UniqueId
    /** The keys in the order the JavaScript object enumerates them (insertion order). */
    var order: seq<string>
    var requests: map<string, Request>

    ghost predicate Valid()
      reads this
    {
      && Distinct(order)
      && (forall k :: k in requests <==> k in order)
      && forall k {:trigger Names(requests[k].id, k)} :: k in requests ==> Names(requests[k].id, k)
    }

    /** The resources that the stored requests hold. */
    ghost function Resources(): set<Resource>
      reads this, requests.Values
    {
      set r, x | r in requests.Values && x in r.resources :: x
    }

    /** The value of the whole set. */
    function Snapshot(): (st: RequestSetState)
      reads this, requests.Values, Resources()
      ensures Valid() ==> WellKeyed(st)
    {
      assert forall k, x :: k in requests && x in requests[k].resources ==> x in Resources();
      RequestSetState(requester, order, map k | k in requests :: requests[k].State())
    }

    /** The status of every stored request, by key. */
    function Statuses(): (m: map<string, Status>)
      reads this, requests.Values
      ensures forall k :: k in m <==> k in requests
    {
      map k | k in requests :: requests[k].status
    }

    constructor (requester: UniqueId)
      ensures Valid() && this.requester == requester && order == [] && requests == map[]
    {
      this.requester := requester;
      order, requests := [], map[];
    }

    /**
     * `add_request`: stores `req` under its rendered id, replacing any request
     * already there (which keeps its place in the order); every other key keeps
     * its request.
     */
    method AddRequest(req: Request)
      requires Valid() && req.id.WellFormed()
      modifies this
      ensures Valid()
      ensures requests == old(requests)[req.id.ToString() := req]
      ensures order == if req.id.ToString() in old(requests) then old(order) else old(order) + [req.id.ToString()]
    {
      var key := req.id.ToString();
      if key !in requests {
        order := order + [key];
      }
      requests := requests[key := req];
      forall k | k in requests ensures Names(requests[k].id, k) {
        if k != key { assert k in old(requests); }
      }
    }

    /** `to_msg`: the published message, from which the set can be read back. */
    function ToMsg(): (m: SchedulerRequestsMsg)
      requires Valid()
      reads this, requests.Values, Resources()
      ensures DecodeSet(m) == Some(Snapshot())
    {
      DecodeEncodeSet(Snapshot());
      EncodeSet(Snapshot())
    }

    /** `cancel_all`: cancels every stored request in key order. */
    method CancelAll()
      requires Valid()
      modifies requests.Values
      ensures Snapshot() == CancelAllState(old(Snapshot()))
      ensures forall r :: r in requests.Values ==> r.resources == old(r.resources)
    {
      var i := 0;
      while i < |order|
        invariant 0 <= i <= |order|
        invariant forall j :: 0 <= j < i ==> requests[order[j]].status == Canceling
        invariant forall r :: r in requests.Values ==> SameButStatus(r)
      {
        var target := requests[order[i]];
        label LoopHead:
        target.Cancel();
        assert forall j :: 0 <= j <= i ==> requests[order[j]].status == Canceling by {
          forall j | 0 <= j <= i ensures requests[order[j]].status == Canceling {
            var r := requests[order[j]];
            if r != target { assert r.status == old@LoopHead(r.status); }
          }
        }
        i := i + 1;
      }
      forall k | k in requests ensures requests[k].status == Canceling {
        var j :| 0 <= j < |order| && order[j] == k;
      }
      AllCancelledSnapshot();
    }

    twostate lemma AllCancelledSnapshot()
      requires unchanged(this) && unchanged(old(Resources()))
      requires forall k :: k in requests ==> requests[k].status == Canceling
      requires forall r :: r in requests.Values ==> SameButStatus(r)
      ensures Snapshot() == CancelAllState(old(Snapshot()))
    {
      forall k | k in requests ensures requests[k].State() == CancelState(old(requests[k].State())) {
        assert requests[k] in requests.Values;
        ResourcesUnchanged(k);
        StateParts(requests[k]);
      }
      assert Snapshot().requests == CancelAllState(old(Snapshot())).requests;
    }

    /** A set whose objects did not change has the same snapshot. */
    twostate lemma SnapshotUnchanged()
      requires unchanged(this) && unchanged(old(requests.Values)) && unchanged(old(Resources()))
      ensures Snapshot() == old(Snapshot())
    {
      forall k | k in requests ensures requests[k].State() == old(requests[k].State()) {
        assert requests[k] in old(requests.Values);
        ResourcesUnchanged(k);
        StateParts(requests[k]);
      }
    }

    twostate lemma ResourcesUnchanged(k: string)
      requires unchanged(this) && unchanged(old(Resources()))
      requires k in requests && requests[k].resources == old(requests[k].resources)
      ensures forall x :: x in requests[k].resources ==> unchanged(x)
    {
      var r := requests[k];
      assert r in old(requests.Values);
      forall x | x in r.resources ensures unchanged(x) {
        assert x in old(r.resources);
        assert x in old(Resources());
      }
    }

    /** Distinct keys hold distinct request objects. */
    lemma DistinctObjects()
      requires Valid()
      ensures forall k1, k2 :: k1 in requests && k2 in requests && requests[k1] == requests[k2] ==> k1 == k2
    {
      forall k1, k2 | k1 in requests && k2 in requests && requests[k1] == requests[k2] ensures k1 == k2 {
        assert Names(requests[k1].id, k1) && Names(requests[k2].id, k2);
      }
    }

    /**
     * The merge of `_handleFeedback`, done on the stored requests: each request
     * that the feedback names takes its status, reason, problem and availability.
     */
    method ApplyFeedback(fb: map<string, Feedback>)
      requires Valid()
      modifies requests.Values
      ensures Snapshot() == Merge(old(Snapshot()), fb)
      ensures forall r :: r in requests.Values ==> r.resources == old(r.resources)
    {
      DistinctObjects();
      forall k | k in requests && k in fb {
        requests[k].status := fb[k].status;
      }
      forall k | k in requests && k in fb {
        requests[k].reason := fb[k].reason;
      }
      forall k | k in requests && k in fb {
        requests[k].problem := fb[k].problem;
      }
      forall k | k in requests && k in fb {
        requests[k].availability := fb[k].availability;
      }
      MergedSnapshot(fb);
    }

    twostate lemma MergedSnapshot(fb: map<string, Feedback>)
      requires unchanged(this) && unchanged(old(Resources()))
      requires forall r :: r in requests.Values ==>
        r.resources == old(r.resources) && r.holdTime == old(r.holdTime) && r.priority == old(r.priority)
      requires forall k :: k in requests && k in fb ==>
        var r, f := requests[k], fb[k];
        r.status == f.status && r.reason == f.reason && r.problem == f.problem && r.availability == f.availability
      requires forall k :: k in requests && k !in fb ==>
        var r := requests[k];
        r.status == old(r.status) && r.reason == old(r.reason) && r.problem == old(r.problem)
        && r.availability == old(r.availability)
      ensures Snapshot() == Merge(old(Snapshot()), fb)
    {
      var before, now := old(Snapshot()), Snapshot();
      forall k | k in now.requests
        ensures k in before.requests
        ensures now.requests[k] == if k in fb then Protocol.ApplyFeedback(before.requests[k], fb[k]) else before.requests[k]
      {
        var r := requests[k];
        assert r in requests.Values;
        ResourcesUnchanged(k);
        StateParts(r);
        assert before.requests[k] == old(r.State());
        assert now.requests[k] == r.State();
      }
      MergeOfStates(before, now, fb);
    }
  }

  /** Every field of `r` but its status is as it was. */
  twostate predicate SameButStatus(r: Request)
    reads r
  {
    && r.resources == old(r.resources) && r.reason == old(r.reason) && r.problem == old(r.problem)
    && r.availability == old(r.availability) && r.holdTime == old(r.holdTime) && r.priority == old(r.priority)
  }

  datatype ReleaseError = UnknownRequest

  /**
   * `Requester`: one requester's request set, the ids it waits on (`pending`)
   * and the ids it holds (`allocated`).
   */
  class Requester {
    const id: UniqueId
    const requests: SchedulerRequests
    /** The topic it subscribes to for feedback. */
    const feedbackTopic: string
    var pendingRequests: seq<string>
    var allocatedRequests: seq<string>

    ghost predicate Valid()
      reads this, requests
    {
      id.WellFormed() && requests.requester == id && requests.Valid()
    }

    /** `new Requester()`: a fresh id (`random`), an empty set, empty lists, subscribed to its feedback topic. */
    constructor (random: Uuid)
      ensures Valid() && fresh(requests) && id == UniqueId(random)
      ensures requests.requests == map[] && requests.order == []
      ensures pendingRequests == [] && allocatedRequests == []
      ensures feedbackTopic == FeedbackTopic(id)
    {
      id := UniqueId(random);
      requests := new SchedulerRequests(UniqueId(random));
      feedbackTopic := FeedbackTopic(UniqueId(random));
      pendingRequests, allocatedRequests := [], [];
    }

    /**
     * `new_request`: a NEW request with a fresh id (`random`) holding
     * `resources`, stored under its rendered id, which is returned.
     */
    method NewRequest(resources: seq<Resource>, random: Uuid) returns (reqId: string)
      requires Valid()
      modifies requests
      ensures Valid()
      ensures reqId == UniqueId(random).ToString() && reqId in requests.requests
      ensures requests.requests == old(requests.requests)[reqId := requests.requests[reqId]]
      ensures fresh(requests.requests[reqId])
      ensures requests.requests[reqId].State() == NewRequestState(UniqueId(random), ResourceMsgs(resources))
      ensures requests.requests[reqId].resources == resources
      ensures requests.order == if reqId in old(requests.requests) then old(requests.order) else old(requests.order) + [reqId]
    {
      var req := new Request(random);
      req.resources := resources;
      requests.AddRequest(req);
      reqId := req.id.ToString();
    }

    /**
     * `send_allocation_request`, up to the wait: a new request holding `res`,
     * its id appended to `pending`, and the whole set published.
     */
    method SendAllocationRequest(res: Resource, random: Uuid) returns (reqId: string, published: SchedulerRequestsMsg)
      requires Valid()
      modifies this, requests
      ensures Valid()
      ensures reqId == UniqueId(random).ToString() && reqId in requests.requests
      ensures requests.requests == old(requests.requests)[reqId := requests.requests[reqId]]
      ensures fresh(requests.requests[reqId]) && requests.requests[reqId].resources == [res]
      ensures requests.order == if reqId in old(requests.requests) then old(requests.order) else old(requests.order) + [reqId]
      ensures requests.requests[reqId].State() == NewRequestState(UniqueId(random), [res.ToMsg()])
      ensures pendingRequests == old(pendingRequests) + [reqId]
      ensures allocatedRequests == old(allocatedRequests)
      ensures published == requests.ToMsg()
    {
      reqId := NewRequest([res], random);
      pendingRequests := pendingRequests + [reqId];
      published := requests.ToMsg();
    }

    /**
     * One check of the wait in `send_allocation_request`: once `reqId` is no
     * longer pending, it is appended to `allocated` (whatever the request's
     * status) and the wait ends.
     */
    method PollAllocation(reqId: string) returns (done: bool)
      modifies this
      ensures done <==> reqId !in old(pendingRequests)
      ensures pendingRequests == old(pendingRequests)
      ensures allocatedRequests == if done then old(allocatedRequests) + [reqId] else old(allocatedRequests)
    {
      done := reqId !in pendingRequests;
      if done {
        allocatedRequests := allocatedRequests + [reqId];
      }
    }

    /**
     * `send_releasing_request`, up to the wait, with the lookup done in the
     * request map: the request is cancelled and the set published; an id the
     * map does not hold is an error and changes nothing.
     */
    method SendReleasingRequest(reqId: string) returns (r: Result<SchedulerRequestsMsg, ReleaseError>)
      requires Valid()
      modifies requests.requests.Values
      ensures Valid()
      ensures reqId !in requests.requests ==> r == Failure(UnknownRequest)
      ensures reqId in requests.requests ==>
        && requests.requests[reqId].status == Canceling && SameButStatus(requests.requests[reqId])
        && r == Success(requests.ToMsg())
      ensures forall q :: q in requests.requests.Values && (reqId !in requests.requests || q != requests.requests[reqId]) ==> unchanged(q)
    {
      if reqId in requests.requests {
        requests.requests[reqId].Cancel();
        r := Success(requests.ToMsg());
      } else {
        r := Failure(UnknownRequest);
      }
    }

    /** One check of the release wait, with the intended condition. */
    method PollRelease(reqId: string) returns (done: bool)
      ensures done == ReleaseSettled(allocatedRequests, reqId)
    {
      done := reqId !in allocatedRequests;
    }

    /**
     * `handleFeedback`: for each stored request in key order, a GRANTED one
     * leaves `pending` and a CLOSED one leaves both lists.
     */
    method HandleFeedback(rs: SchedulerRequests)
      requires rs.Valid()
      modifies this
      ensures pendingRequests == PendingAfter(old(pendingRequests), rs.Statuses())
      ensures allocatedRequests == AllocatedAfter(old(allocatedRequests), rs.Statuses())
    {
      ghost var statuses := rs.Statuses();
      ghost var seen: set<string> := {};
      WithoutNothing(pendingRequests);
      WithoutNothing(allocatedRequests);
      assert ResolvedIds(statuses) * seen == {} && ClosedIds(statuses) * seen == {};
      var i := 0;
      while i < |rs.order|
        invariant 0 <= i <= |rs.order|
        invariant seen == set j | 0 <= j < i :: rs.order[j]
        invariant pendingRequests == Without(old(pendingRequests), ResolvedIds(statuses) * seen)
        invariant allocatedRequests == Without(old(allocatedRequests), ClosedIds(statuses) * seen)
      {
        var key := rs.order[i];
        var status := rs.requests[key].status;
        if status == Granted {
          PullWithout(old(pendingRequests), ResolvedIds(statuses) * seen, key);
          pendingRequests := Pull(pendingRequests, key);
          assert ResolvedIds(statuses) * (seen + {key}) == ResolvedIds(statuses) * seen + {key};
          assert ClosedIds(statuses) * (seen + {key}) == ClosedIds(statuses) * seen;
        } else if status == Closed {
          PullWithout(old(pendingRequests), ResolvedIds(statuses) * seen, key);
          PullWithout(old(allocatedRequests), ClosedIds(statuses) * seen, key);
          pendingRequests := Pull(pendingRequests, key);
          allocatedRequests := Pull(allocatedRequests, key);
          assert ResolvedIds(statuses) * (seen + {key}) == ResolvedIds(statuses) * seen + {key};
          assert ClosedIds(statuses) * (seen + {key}) == ClosedIds(statuses) * seen + {key};
        } else {
          assert ResolvedIds(statuses) * (seen + {key}) == ResolvedIds(statuses) * seen;
          assert ClosedIds(statuses) * (seen + {key}) == ClosedIds(statuses) * seen;
        }
        seen := seen + {key};
        i := i + 1;
      }
      assert ResolvedIds(statuses) * seen == ResolvedIds(statuses);
      assert ClosedIds(statuses) * seen == ClosedIds(statuses);
    }

    /**
     * `_handleFeedback` as its unreached code intends: merge the feedback into
     * the set and, only if that changed the set, reconcile the lists and
     * publish the set.
     */
    method HandleFeedbackMessage(fb: map<string, Feedback>) returns (changed: bool, published: Option<SchedulerRequestsMsg>)
      requires Valid()
      modifies this, requests.requests.Values
      ensures Valid()
      ensures requests.Snapshot() == Merge(old(requests.Snapshot()), fb)
      ensures changed <==> requests.Snapshot() != old(requests.Snapshot())
      ensures changed ==> && pendingRequests == PendingAfter(old(pendingRequests), requests.Statuses())
                          && allocatedRequests == AllocatedAfter(old(allocatedRequests), requests.Statuses())
                          && published == Some(requests.ToMsg())
      ensures !changed ==> && pendingRequests == old(pendingRequests)
                           && allocatedRequests == old(allocatedRequests) && published == None
    {
      var previous := requests.Snapshot();
      requests.ApplyFeedback(fb);
      changed := requests.Snapshot() != previous;
      if changed {
        var m := ReconcileAndPublish();
        published := Some(m);
      } else {
        published := None;
      }
    }

    /** Reconciliation against the own set, then its publication; the set itself is untouched. */
    method ReconcileAndPublish() returns (published: SchedulerRequestsMsg)
      requires Valid()
      modifies this
      ensures Valid()
      ensures requests.Snapshot() == old(requests.Snapshot())
      ensures pendingRequests == PendingAfter(old(pendingRequests), requests.Statuses())
      ensures allocatedRequests == AllocatedAfter(old(allocatedRequests), requests.Statuses())
      ensures published == requests.ToMsg()
    {
      HandleFeedback(requests);
      requests.SnapshotUnchanged();
      published := requests.ToMsg();
    }

    /** `cancel_all`: every stored request cancelled, then the set published. */
    method CancelAll() returns (published: SchedulerRequestsMsg)
      requires Valid()
      modifies requests.requests.Values
      ensures Valid()
      ensures requests.Snapshot() == CancelAllState(old(requests.Snapshot()))
      ensures published == requests.ToMsg()
    {
      requests.CancelAll();
      published := requests.ToMsg();
    }
  }
}
