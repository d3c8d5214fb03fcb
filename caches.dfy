/** The two per-context caches that keep one agreed answer per key across
    nodes: the owner address space of each region-tree node's version state,
    and the canonical top view of each physical instance. Requests to other
    nodes become results telling the caller where a request goes and which
    event it waits on; fresh events are supplied by the caller. */
module Caches {
  import opened LegionTypes

  // ---------------------------------------------------------------------
  // Version owners

  /** The owner of a node's version state, and whether only remote nodes
      have asked for it so far. */
  datatype OwnerRecord = OwnerRecord(owner: AddressSpace, remoteOnly: bool)

  /** The assigned owners and the requests still in flight. */
  datatype Owners = Owners(records: map<NodeId, OwnerRecord>, pending: map<NodeId, EventId>)

  /** Which context variant answers: an inner context assigns owners itself;
      the top-level context does so only for nodes made on its own node; a
      remote mirror does so only when it mirrors the top-level context, and
      otherwise asks the node owning the context it mirrors. */
  datatype Kind = InnerKind | TopLevelKind | RemoteKind(topLevel: bool, contextOwner: AddressSpace)

  datatype OwnerLookup =
    | Found(owner: AddressSpace)
    | WaitFor(event: EventId)
    | SendRequest(event: EventId, target: AddressSpace)
    | Answered(toTrigger: EventId)

  datatype OwnerReply = OwnerReply(owners: Owners, lookup: OwnerLookup)

  /** Assigning or reading an owner locally: the first requester becomes the
      owner; a request from the local node clears the remote-only flag. */
  function AssignOwner(records: map<NodeId, OwnerRecord>, node: NodeId, source: AddressSpace,
                       local: AddressSpace): (r: (map<NodeId, OwnerRecord>, AddressSpace))
    ensures node in r.0 && r.1 == r.0[node].owner
    ensures node in records ==> r.0 == records[node := records[node].(remoteOnly := records[node].remoteOnly && source != local)]
    ensures node !in records ==> r.0 == records[node := OwnerRecord(source, source != local)]
  {
    if node in records then
      var rec := records[node];
      (records[node := rec.(remoteOnly := rec.remoteOnly && source != local)], rec.owner)
    else (records[node := OwnerRecord(source, source != local)], source)
  }

  /** Whether this variant answers for a node made on `ownerSpace` itself. */
  predicate AnswersLocally(kind: Kind, ownerSpace: AddressSpace, local: AddressSpace)
  {
    match kind
    case InnerKind => true
    case TopLevelKind => ownerSpace == local
    case RemoteKind(topLevel, _) => topLevel && ownerSpace == local
  }

  /** Where a variant that does not answer locally sends its request. */
  function RequestTarget(kind: Kind, ownerSpace: AddressSpace): AddressSpace
  {
    match kind
    case RemoteKind(topLevel, contextOwner) => if topLevel then ownerSpace else contextOwner
    case _ => ownerSpace
  }

  /** Looking up the owner of `node` (made on `ownerSpace`), asked by `source`. */
  function GetVersionOwner(kind: Kind, o: Owners, node: NodeId, source: AddressSpace, local: AddressSpace,
                           ownerSpace: AddressSpace, newEvent: EventId): (r: OwnerReply)
    ensures AnswersLocally(kind, ownerSpace, local) ==>
              r == OwnerReply(o.(records := AssignOwner(o.records, node, source, local).0),
                              Found(AssignOwner(o.records, node, source, local).1))
    ensures !AnswersLocally(kind, ownerSpace, local) && node in o.records ==>
              r == OwnerReply(o, Found(o.records[node].owner))
    ensures !AnswersLocally(kind, ownerSpace, local) && node !in o.records && node in o.pending ==>
              r == OwnerReply(o, WaitFor(o.pending[node]))
    ensures r.lookup.SendRequest? <==> !AnswersLocally(kind, ownerSpace, local) && node !in o.records && node !in o.pending
    ensures r.lookup.SendRequest? ==>
              r.owners == o.(pending := o.pending[node := newEvent]) &&
              r.lookup == SendRequest(newEvent, RequestTarget(kind, ownerSpace))
    ensures r.lookup.Found? ==> node in r.owners.records && r.lookup.owner == r.owners.records[node].owner
  {
    if AnswersLocally(kind, ownerSpace, local) then
      var (records, owner) := AssignOwner(o.records, node, source, local);
      OwnerReply(o.(records := records), Found(owner))
    else if node in o.records then OwnerReply(o, Found(o.records[node].owner))
    else if node in o.pending then OwnerReply(o, WaitFor(o.pending[node]))
    else OwnerReply(o.(pending := o.pending[node := newEvent]), SendRequest(newEvent, RequestTarget(kind, ownerSpace)))
  }

  /** The owner's answer arrives: it is recorded (not remote only), the
      pending request is erased, and its event is the one to trigger. */
  function VersionOwnerResponse(o: Owners, node: NodeId, result: AddressSpace): (r: (Owners, EventId))
    requires node !in o.records && node in o.pending
    ensures r.0.records == o.records[node := OwnerRecord(result, false)]
    ensures r.0.pending == o.pending - {node} && r.1 == o.pending[node]
  {
    (Owners(o.records[node := OwnerRecord(result, false)], o.pending - {node}), o.pending[node])
  }

  /** A recorded owner never changes, and the remote-only flag is only ever
      cleared, by any lookup. */
  lemma LookupKeepsRecords(kind: Kind, o: Owners, node: NodeId, source: AddressSpace, local: AddressSpace,
                           ownerSpace: AddressSpace, newEvent: EventId, n: NodeId)
    requires n in o.records
    ensures var r := GetVersionOwner(kind, o, node, source, local, ownerSpace, newEvent).owners;
            n in r.records && r.records[n].owner == o.records[n].owner &&
            (r.records[n].remoteOnly ==> o.records[n].remoteOnly)
  {
  }

  /** The owners cache as a context keeps it: requests are in flight only
      for nodes with no record that this variant does not answer locally. */
  predicate OwnersInv(kind: Kind, ownerOf: NodeId -> AddressSpace, local: AddressSpace, o: Owners)
  {
    (forall n :: n in o.pending ==> n !in o.records) &&
    (forall n :: n in o.pending ==> !AnswersLocally(kind, ownerOf(n), local))
  }

  datatype OwnerEvent = Lookup(node: NodeId, source: AddressSpace, newEvent: EventId) | Response(node: NodeId, result: AddressSpace)

  /** A response arrives only for a request in flight. */
  predicate OwnerEnabled(o: Owners, e: OwnerEvent)
  {
    e.Response? ==> e.node in o.pending && e.node !in o.records
  }

  function OwnerApply(kind: Kind, ownerOf: NodeId -> AddressSpace, local: AddressSpace, o: Owners,
                      e: OwnerEvent): OwnerReply
    requires OwnerEnabled(o, e)
  {
    match e
    case Lookup(node, source, ev) => GetVersionOwner(kind, o, node, source, local, ownerOf(node), ev)
    case Response(node, result) =>
      var (o', ev) := VersionOwnerResponse(o, node, result);
      OwnerReply(o', Answered(ev))
  }

  /** Every step keeps the invariant; a recorded node stays recorded with
      the same owner; a node in flight stays in flight or becomes recorded. */
  lemma OwnerStepFacts(kind: Kind, ownerOf: NodeId -> AddressSpace, local: AddressSpace, o: Owners, e: OwnerEvent)
    requires OwnersInv(kind, ownerOf, local, o) && OwnerEnabled(o, e)
    ensures var r := OwnerApply(kind, ownerOf, local, o, e).owners;
            OwnersInv(kind, ownerOf, local, r) &&
            (forall n :: n in o.records ==> n in r.records && r.records[n].owner == o.records[n].owner) &&
            (forall n :: n in o.pending ==> n in r.pending || n in r.records)
  {
  }

  function SendsFor(replies: seq<OwnerLookup>, targets: seq<NodeId>, n: NodeId): nat
    requires |replies| == |targets|
    decreases |replies|
  {
    if replies == [] then 0
    else (if targets[0] == n && replies[0].SendRequest? then 1 else 0) + SendsFor(replies[1..], targets[1..], n)
  }

  /** The answers of a run of lookups and responses, and the final cache. */
  function RunOwners(kind: Kind, ownerOf: NodeId -> AddressSpace, local: AddressSpace, o: Owners,
                     es: seq<OwnerEvent>): (r: Option<(Owners, seq<OwnerLookup>)>)
    decreases |es|
    ensures r.Some? ==> |r.value.1| == |es|
  {
    if es == [] then Some((o, []))
    else if !OwnerEnabled(o, es[0]) then None
    else
      var s := OwnerApply(kind, ownerOf, local, o, es[0]);
      match RunOwners(kind, ownerOf, local, s.owners, es[1..])
      case None => None
      case Some(rest) => Some((rest.0, [s.lookup] + rest.1))
  }

  function NodesOf(es: seq<OwnerEvent>): (r: seq<NodeId>)
    ensures |r| == |es|
  {
    seq(|es|, i requires 0 <= i < |es| => es[i].node)
  }

  /** Over any run, at most one request is sent for each node, and none for
      a node that already has a record or a request in flight. */
  lemma {:induction false} OneRequestPerNode(kind: Kind, ownerOf: NodeId -> AddressSpace, local: AddressSpace,
                                             o: Owners, es: seq<OwnerEvent>, n: NodeId)
    requires OwnersInv(kind, ownerOf, local, o)
    requires RunOwners(kind, ownerOf, local, o, es).Some?
    ensures SendsFor(RunOwners(kind, ownerOf, local, o, es).value.1, NodesOf(es), n) <=
            (if n in o.records || n in o.pending then 0 else 1)
    decreases |es|
  {
    if es != [] {
      var s := OwnerApply(kind, ownerOf, local, o, es[0]);
      OwnerStepFacts(kind, ownerOf, local, o, es[0]);
      OneRequestPerNode(kind, ownerOf, local, s.owners, es[1..], n);
      var rest := RunOwners(kind, ownerOf, local, s.owners, es[1..]).value;
      assert NodesOf(es)[1..] == NodesOf(es[1..]);
      assert RunOwners(kind, ownerOf, local, o, es).value.1 == [s.lookup] + rest.1;
      assert ([s.lookup] + rest.1)[1..] == rest.1;
    }
  }

  /** Over any run, every answer naming an owner for `n` names the owner
      recorded for `n` at the end: all lookups agree. */
  lemma {:induction false} LookupsAgree(kind: Kind, ownerOf: NodeId -> AddressSpace, local: AddressSpace,
                                        o: Owners, es: seq<OwnerEvent>, n: NodeId)
    requires OwnersInv(kind, ownerOf, local, o)
    requires RunOwners(kind, ownerOf, local, o, es).Some?
    ensures var (last, answers) := RunOwners(kind, ownerOf, local, o, es).value;
            (n in o.records ==> n in last.records && last.records[n].owner == o.records[n].owner) &&
            forall i :: 0 <= i < |es| && es[i].Lookup? && es[i].node == n && answers[i].Found? ==>
              n in last.records && answers[i].owner == last.records[n].owner
    decreases |es|
  {
    if es != [] {
      var s := OwnerApply(kind, ownerOf, local, o, es[0]);
      OwnerStepFacts(kind, ownerOf, local, o, es[0]);
      LookupsAgree(kind, ownerOf, local, s.owners, es[1..], n);
      var rest := RunOwners(kind, ownerOf, local, s.owners, es[1..]).value;
      var answers := [s.lookup] + rest.1;
      forall i | 0 <= i < |es| && es[i].Lookup? && es[i].node == n && answers[i].Found?
        ensures n in rest.0.records && answers[i].owner == rest.0.records[n].owner
      {
        if i > 0 {
          assert es[1..][i - 1] == es[i];
          assert answers[i] == rest.1[i - 1];
        }
      }
    }
  }

  // ---------------------------------------------------------------------
  // Instance top views

  /** The recorded views, and the managers whose view is being made, with
      the event later requesters wait on (made by the first of them). */
  datatype TopViews = TopViews(views: map<ManagerId, ViewId>, pending: map<ManagerId, Option<EventId>>)

  datatype ViewLookup =
    | Forward(ownerSpace: AddressSpace)
    | Cached(view: ViewId)
    | MakeView
    | WaitView(event: EventId)
    | Recorded(toTrigger: Option<EventId>)
    | Removed(view: ViewId)

  datatype ViewReply = ViewReply(topViews: TopViews, lookup: ViewLookup)

  /** Asking for the top view of `m`: a node that does not own the instance
      forwards the request to the owner node; the owner answers from the
      cache, tells the first requester to make the view, and makes every
      later requester wait on one shared event. */
  function RequestTopView(t: TopViews, m: ManagerId, isOwner: bool, ownerSpace: AddressSpace,
                          newEvent: EventId): (r: ViewReply)
    ensures !isOwner ==> r == ViewReply(t, Forward(ownerSpace))
    ensures isOwner && m in t.views ==> r == ViewReply(t, Cached(t.views[m]))
    ensures r.lookup.MakeView? <==> isOwner && m !in t.views && m !in t.pending
    ensures r.lookup.MakeView? ==> r.topViews == t.(pending := t.pending[m := None])
    ensures r.lookup.WaitView? ==>
              isOwner && m !in t.views && m in t.pending && r.topViews.views == t.views &&
              r.topViews.pending == t.pending[m := Some(r.lookup.event)] &&
              (t.pending[m].Some? ==> r.lookup.event == t.pending[m].value)
    ensures isOwner && m !in t.views && m in t.pending ==> r.lookup.WaitView?
  {
    if !isOwner then ViewReply(t, Forward(ownerSpace))
    else if m in t.views then ViewReply(t, Cached(t.views[m]))
    else if m !in t.pending then ViewReply(t.(pending := t.pending[m := None]), MakeView)
    else match t.pending[m]
      case None => ViewReply(t.(pending := t.pending[m := Some(newEvent)]), WaitView(newEvent))
      case Some(e) => ViewReply(t, WaitView(e))
  }

  /** The maker records the view: the pending entry is erased and its event,
      if a later requester made one, is the one to trigger. */
  function RecordTopView(t: TopViews, m: ManagerId, v: ViewId): (r: (TopViews, Option<EventId>))
    requires m !in t.views && m in t.pending
    ensures r.0.views == t.views[m := v] && r.0.pending == t.pending - {m}
    ensures r.1 == t.pending[m]
  {
    (TopViews(t.views[m := v], t.pending - {m}), t.pending[m])
  }

  /** The instance was deleted: its view leaves the cache. */
  function NotifyInstanceDeletion(t: TopViews, m: ManagerId): (r: TopViews)
    requires m in t.views
    ensures r.views == t.views - {m} && r.pending == t.pending && m !in r.views
  {
    t.(views := t.views - {m})
  }

  /** A manager is never both recorded and being made. */
  predicate TopViewsInv(t: TopViews)
  {
    forall m :: m in t.pending ==> m !in t.views
  }

  datatype ViewEvent =
    | Request(manager: ManagerId, isOwner: bool, ownerSpace: AddressSpace, newEvent: EventId)
    | Record(manager: ManagerId, view: ViewId)
    | Deletion(manager: ManagerId)

  predicate ViewEnabled(t: TopViews, e: ViewEvent)
  {
    match e
    case Request(_, _, _, _) => true
    case Record(m, _) => m !in t.views && m in t.pending
    case Deletion(m) => m in t.views
  }

  function ViewApply(t: TopViews, e: ViewEvent): ViewReply
    requires ViewEnabled(t, e)
  {
    match e
    case Request(m, isOwner, ownerSpace, ev) => RequestTopView(t, m, isOwner, ownerSpace, ev)
    case Record(m, v) =>
      var (t', ev) := RecordTopView(t, m, v);
      ViewReply(t', Recorded(ev))
    case Deletion(m) => ViewReply(NotifyInstanceDeletion(t, m), Removed(t.views[m]))
  }

  /** Each step keeps the invariant, and without deletions a manager that is
      recorded or being made stays so. */
  lemma ViewStepFacts(t: TopViews, e: ViewEvent)
    requires TopViewsInv(t) && ViewEnabled(t, e)
    ensures TopViewsInv(ViewApply(t, e).topViews)
    ensures !e.Deletion? ==> forall m :: m in t.views || m in t.pending ==>
              m in ViewApply(t, e).topViews.views || m in ViewApply(t, e).topViews.pending
    ensures !e.Deletion? ==> forall m :: m in t.views ==>
              m in ViewApply(t, e).topViews.views && ViewApply(t, e).topViews.views[m] == t.views[m]
  {
  }

  function RunViews(t: TopViews, es: seq<ViewEvent>): (r: Option<(TopViews, seq<ViewLookup>)>)
    decreases |es|
    ensures r.Some? ==> |r.value.1| == |es|
  {
    if es == [] then Some((t, []))
    else if !ViewEnabled(t, es[0]) then None
    else
      var s := ViewApply(t, es[0]);
      match RunViews(s.topViews, es[1..])
      case None => None
      case Some(rest) => Some((rest.0, [s.lookup] + rest.1))
  }

  function MakersOf(es: seq<ViewEvent>, answers: seq<ViewLookup>, m: ManagerId): nat
    requires |es| == |answers|
    decreases |es|
  {
    if es == [] then 0
    else (if es[0].manager == m && answers[0].MakeView? then 1 else 0) + MakersOf(es[1..], answers[1..], m)
  }

  /** Without deletions, at most one requester is told to make the view of a
      manager, and none when it is already recorded or being made. */
  lemma {:induction false} OneMakerPerManager(t: TopViews, es: seq<ViewEvent>, m: ManagerId)
    requires TopViewsInv(t)
    requires RunViews(t, es).Some?
    requires forall i :: 0 <= i < |es| ==> !es[i].Deletion?
    ensures MakersOf(es, RunViews(t, es).value.1, m) <= (if m in t.views || m in t.pending then 0 else 1)
    decreases |es|
  {
    if es != [] {
      var s := ViewApply(t, es[0]);
      ViewStepFacts(t, es[0]);
      assert forall i :: 0 <= i < |es[1..]| ==> es[1..][i] == es[i + 1];
      OneMakerPerManager(s.topViews, es[1..], m);
      var rest := RunViews(s.topViews, es[1..]).value;
      var answers := [s.lookup] + rest.1;
      assert answers[1..] == rest.1;
    }
  }
}
