/** The requirement table of a task context and the questions asked of it:
    the combined index space over the task's own requirements followed by the
    requirements of regions the context created, privilege checks for index
    spaces and regions, the search for the parent requirement of a child's
    requirement (which may widen or synthesise created requirements), the
    dependence test between two requirements, and whether a created
    requirement has since been deleted. */
module Requirements {
  import opened LegionTypes
  import Ledger

  // ---------------------------------------------------------------------
  // Combined index space: regions ++ created requirements

  /** Index `idx` of the combined table: the task's own requirements first,
      then the created ones. */
  function CombinedRequirement(regions: seq<RegionRequirement>, created: seq<RegionRequirement>,
                               idx: nat): (r: RegionRequirement)
    requires idx < |regions| + |created|
    ensures r == (regions + created)[idx]
    ensures idx < |regions| ==> r == regions[idx]
    ensures idx >= |regions| ==> r == created[idx - |regions|]
  {
    if idx < |regions| then regions[idx] else created[idx - |regions|]
  }

  // ---------------------------------------------------------------------
  // Index-space privilege check

  /** The first position at or after `from` whose requirement names `parent`. */
  function FirstIndexParent(indexes: seq<IndexSpaceRequirement>, parent: IndexSpace, from: nat): (r: Option<nat>)
    requires from <= |indexes|
    decreases |indexes| - from
    ensures r.Some? ==> from <= r.value < |indexes| && indexes[r.value].handle == parent
    ensures r.Some? ==> forall j :: from <= j < r.value ==> indexes[j].handle != parent
    ensures r.None? ==> forall j :: from <= j < |indexes| ==> indexes[j].handle != parent
  {
    if from == |indexes| then None
    else if indexes[from].handle == parent then Some(from)
    else FirstIndexParent(indexes, parent, from + 1)
  }

  /** Checking an index-space requirement against the owner task's index
      requirements and then against the index spaces this context created. */
  function CheckIndexPrivilege(indexes: seq<IndexSpaceRequirement>, createdIndexSpaces: set<IndexSpace>,
                               req: IndexSpaceRequirement, forest: Forest): (r: LegionError)
    ensures req.verified ==> r == NoError
    ensures r in {NoError, BadIndexPath, BadIndexPrivileges, BadParentIndex}
    ensures !req.verified ==>
              (r == BadParentIndex <==>
                 (forall j :: 0 <= j < |indexes| ==> indexes[j].handle != req.parent) &&
                 req.parent !in createdIndexSpaces)
    ensures !req.verified && (req.parent, req.handle) !in forest.indexPaths ==> r != NoError
    ensures r == BadIndexPath ==> (req.parent, req.handle) !in forest.indexPaths
    ensures !req.verified && (req.parent, req.handle) !in forest.indexPaths && r != BadParentIndex ==>
              r == BadIndexPath
    ensures !req.verified ==>
              forall j :: 0 <= j < |indexes| && indexes[j].handle == req.parent &&
                          (forall k :: 0 <= k < j ==> indexes[k].handle != req.parent) ==>
                (r == NoError <==> (req.parent, req.handle) in forest.indexPaths &&
                                   !Exceeds(req.privilege, indexes[j].privilege))
    ensures r == BadIndexPrivileges ==>
              exists j :: 0 <= j < |indexes| && indexes[j].handle == req.parent &&
                          Exceeds(req.privilege, indexes[j].privilege)
    ensures r == NoError && !req.verified ==>
              (req.parent, req.handle) in forest.indexPaths &&
              (req.parent in createdIndexSpaces ||
               exists j :: 0 <= j < |indexes| && indexes[j].handle == req.parent &&
                           !Exceeds(req.privilege, indexes[j].privilege))
  {
    if req.verified then NoError
    else match FirstIndexParent(indexes, req.parent, 0)
      case Some(j) =>
        if (req.parent, req.handle) !in forest.indexPaths then BadIndexPath
        else if Exceeds(req.privilege, indexes[j].privilege) then BadIndexPrivileges
        else NoError
      case None =>
        if req.parent in createdIndexSpaces then
          if (req.parent, req.handle) !in forest.indexPaths then BadIndexPath else NoError
        else BadParentIndex
  }

  // ---------------------------------------------------------------------
  // Region privilege check

  /** Whether the forest has the path the check needs from the parent region
      to the requested region or partition. */
  predicate PathExists(req: RegionRequirement, forest: Forest)
  {
    if req.handleType == Singular || req.handleType == RegProjection then
      (req.parent.indexSpace, req.region.indexSpace) in forest.indexPaths
    else
      (req.parent.indexSpace, req.partition.indexPartition) in forest.partitionPaths
  }

  /** Whether a binding's privilege admits the request's privilege: it grants
      every requested bit, or it is WRITE_DISCARD, or the check is skipped. */
  predicate PrivilegeAdmits(req: RegionRequirement, our: RegionRequirement, skip: bool)
  {
    skip || !Exceeds(req.privilege, our.privilege) || our.privilege == WRITE_DISCARD
  }

  /** The privilege error for the request's handle type. */
  function PrivilegeError(req: RegionRequirement): LegionError
  {
    if req.handleType == Singular || req.handleType == RegProjection then BadRegionPrivileges
    else BadPartitionPrivileges
  }

  /** The path error for the request's handle type. */
  function PathError(req: RegionRequirement): LegionError
  {
    if req.handleType == Singular || req.handleType == RegProjection then BadRegionPath
    else BadPartitionPath
  }

  /** Checking one binding `our` against `req`, removing from the working set
      `remaining` the fields `our` grants. Returns the error and the new
      working set. */
  function PrivilegeInternal(req: RegionRequirement, our: RegionRequirement, remaining: set<FieldId>,
                             skip: bool, forest: Forest): (r: (LegionError, set<FieldId>))
    ensures r.0 in {NoError, BadParentRegion, PathError(req), PrivilegeError(req)}
    ensures r.0 == NoError ==> r.1 == {}
    ensures r.0 == BadParentRegion ==> r.1 != {}
    ensures r.0 == NoError || r.0 == BadParentRegion ==>
              r.1 == remaining - (if our.region == req.parent then our.fields else {})
    ensures r.0 != NoError && r.0 != BadParentRegion ==> our.region == req.parent
    ensures r.0 == PathError(req) ==> !PathExists(req, forest)
    ensures r.0 == PrivilegeError(req) ==>
              PathExists(req, forest) && !PrivilegeAdmits(req, our, skip) && remaining * our.fields != {}
    ensures our.region == req.parent && !PathExists(req, forest) ==> r.0 == PathError(req)
    ensures (our.region == req.parent && PathExists(req, forest) && !PrivilegeAdmits(req, our, skip) &&
             remaining * our.fields != {}) ==> r.0 == PrivilegeError(req)
  {
    if our.region == req.parent && !PathExists(req, forest) then (PathError(req), remaining)
    else if our.region == req.parent && remaining * our.fields != {} && !PrivilegeAdmits(req, our, skip) then
      (PrivilegeError(req), remaining)
    else
      var left := if our.region == req.parent then remaining - our.fields else remaining;
      if left != {} then (BadParentRegion, left) else (NoError, left)
  }

  /** Outcome of trying a list of bindings: a final error, or the fields still
      to be granted. */
  datatype Scan = Done(err: LegionError) | Continue(remaining: set<FieldId>)

  /** Trying bindings in order. `returnable[i]` says whether binding `i` is a
      created requirement with returnable privileges; such a binding that
      reports BAD_PARENT_REGION makes the whole check succeed. */
  function ScanBindings(req: RegionRequirement, bs: seq<RegionRequirement>, returnable: seq<bool>,
                        remaining: set<FieldId>, skip: bool, forest: Forest): (r: Scan)
    requires |bs| == |returnable|
    ensures r.Done? ==> r.err in {NoError, PathError(req), PrivilegeError(req)}
    ensures r.Continue? ==> r.remaining <= remaining
    ensures r.Continue? && bs != [] ==> r.remaining != {}
    decreases |bs|
  {
    if bs == [] then Continue(remaining)
    else
      var (et, left) := PrivilegeInternal(req, bs[0], remaining, skip, forest);
      if et == NoError then Done(NoError)
      else if et != BadParentRegion then Done(et)
      else if returnable[0] then Done(NoError)
      else ScanBindings(req, bs[1..], returnable[1..], left, skip, forest)
  }

  /** The task's own requirements never carry returnable privileges. */
  function NotReturnable(n: nat): (r: seq<bool>)
    ensures |r| == n && forall i :: 0 <= i < n ==> !r[i]
  {
    seq(n, _ => false)
  }


  /** Whether the context created every requested field (in the field space
      of the requested region). */
  predicate AllFieldsCreated(req: RegionRequirement, createdFields: set<(FieldSpace, FieldId)>): (r: bool)
    ensures r <==> req.fields <= Ledger.FieldsOf(createdFields, req.region.fieldSpace)
  {
    forall f :: f in req.fields ==> (req.region.fieldSpace, f) in createdFields
  }

  /** The region privilege check: the task's own requirements, then the
      created ones, sharing one working set of fields still to be granted,
      then the fields the context created. */
  function CheckRegionPrivilege(regions: seq<RegionRequirement>, created: seq<RegionRequirement>,
                                returnable: seq<bool>, createdFields: set<(FieldSpace, FieldId)>,
                                req: RegionRequirement, skip: bool, forest: Forest): (r: LegionError)
    requires |created| == |returnable|
    ensures r in {NoError, BadParentRegion, PathError(req), PrivilegeError(req)}
    ensures req.verified ==> r == NoError
  {
    if req.verified then NoError
    else match ScanBindings(req, regions + created, NotReturnable(|regions|) + returnable, req.fields, skip, forest)
      case Done(e) => e
      case Continue(_) => if AllFieldsCreated(req, createdFields) then NoError else BadParentRegion
  }

  /** The fields granted by the bindings that name `parent`. */
  function MatchedFields(parent: LogicalRegion, bs: seq<RegionRequirement>): set<FieldId>
    decreases |bs|
  {
    if bs == [] then {}
    else (if bs[0].region == parent then bs[0].fields else {}) + MatchedFields(parent, bs[1..])
  }

  /** Whether the bindings jointly grant every requested field. */
  predicate Covered(req: RegionRequirement, bs: seq<RegionRequirement>)
  {
    req.fields <= MatchedFields(req.parent, bs)
  }

  predicate HasReturnable(returnable: seq<bool>)
  {
    exists i :: 0 <= i < |returnable| && returnable[i]
  }

  /** No binding naming the parent can raise a path or privilege error. */
  predicate NoHardError(req: RegionRequirement, bs: seq<RegionRequirement>, skip: bool, forest: Forest)
  {
    forall i :: 0 <= i < |bs| && bs[i].region == req.parent ==>
      PathExists(req, forest) && PrivilegeAdmits(req, bs[i], skip)
  }

  lemma HasReturnableTail(returnable: seq<bool>)
    requires returnable != []
    ensures HasReturnable(returnable) <==> returnable[0] || HasReturnable(returnable[1..])
  {
    if HasReturnable(returnable) && !returnable[0] {
      var i :| 0 <= i < |returnable| && returnable[i];
      assert returnable[1..][i - 1];
    }
    if HasReturnable(returnable[1..]) {
      var i :| 0 <= i < |returnable[1..]| && returnable[1..][i];
      assert returnable[i + 1];
    }
  }

  lemma HasReturnableAfterOriginals(n: nat, returnable: seq<bool>)
    ensures HasReturnable(NotReturnable(n) + returnable) <==> HasReturnable(returnable)
  {
    var all := NotReturnable(n) + returnable;
    if HasReturnable(all) {
      var i :| 0 <= i < |all| && all[i];
      assert returnable[i - n];
    }
    if HasReturnable(returnable) {
      var i :| 0 <= i < |returnable| && returnable[i];
      assert all[i + n];
    }
  }

  /** What a scan's outcome says about the bindings it tried. */
  lemma {:induction false} ScanFacts(req: RegionRequirement, bs: seq<RegionRequirement>, returnable: seq<bool>,
                                     remaining: set<FieldId>, skip: bool, forest: Forest)
    requires |bs| == |returnable|
    ensures var s := ScanBindings(req, bs, returnable, remaining, skip, forest);
            (s == Done(NoError) ==> remaining <= MatchedFields(req.parent, bs) || HasReturnable(returnable)) &&
            (s.Continue? ==> s.remaining == remaining - MatchedFields(req.parent, bs) &&
                             (bs != [] ==> s.remaining != {}) && !HasReturnable(returnable)) &&
            (s.Done? ==> s.err in {NoError, PathError(req), PrivilegeError(req)}) &&
            (NoHardError(req, bs, skip, forest) ==> s == Done(NoError) || s.Continue?) &&
            ((NoHardError(req, bs, skip, forest) && bs != [] &&
              (remaining <= MatchedFields(req.parent, bs) || HasReturnable(returnable))) ==> s == Done(NoError))
    decreases |bs|
  {
    if bs != [] {
      var (et, left) := PrivilegeInternal(req, bs[0], remaining, skip, forest);
      if NoHardError(req, bs, skip, forest) {
        assert forall i :: 0 <= i < |bs[1..]| ==> bs[1..][i] == bs[i + 1];
        assert NoHardError(req, bs[1..], skip, forest);
      }
      HasReturnableTail(returnable);
      ScanFacts(req, bs[1..], returnable[1..], left, skip, forest);
    }
  }

  /** A privilege error comes from a binding that names the parent, shares a
      requested field and does not admit the requested privilege. */
  lemma {:induction false} ScanPrivilegeError(req: RegionRequirement, bs: seq<RegionRequirement>, returnable: seq<bool>,
                                              remaining: set<FieldId>, skip: bool, forest: Forest)
    requires |bs| == |returnable|
    requires remaining <= req.fields
    requires ScanBindings(req, bs, returnable, remaining, skip, forest) == Done(PrivilegeError(req))
    ensures exists i :: 0 <= i < |bs| && bs[i].region == req.parent &&
                        !PrivilegeAdmits(req, bs[i], skip) && bs[i].fields * req.fields != {}
    decreases |bs|
  {
    var (et, left) := PrivilegeInternal(req, bs[0], remaining, skip, forest);
    if et == PrivilegeError(req) {
      assert bs[0].fields * req.fields != {} by {
        assert remaining * bs[0].fields <= req.fields * bs[0].fields;
      }
    } else {
      ScanPrivilegeError(req, bs[1..], returnable[1..], left, skip, forest);
      var i :| 0 <= i < |bs[1..]| && bs[1..][i].region == req.parent &&
               !PrivilegeAdmits(req, bs[1..][i], skip) && bs[1..][i].fields * req.fields != {};
      assert bs[i + 1] == bs[1..][i];
    }
  }

  /** Bindings that do not name the parent and are not returnable are skipped
      without touching the working set. */
  lemma {:induction false} ScanSkipsPrefix(req: RegionRequirement, bs: seq<RegionRequirement>, returnable: seq<bool>,
                                           remaining: set<FieldId>, skip: bool, forest: Forest, k: nat)
    requires |bs| == |returnable| && k <= |bs|
    requires remaining != {}
    requires forall j :: 0 <= j < k ==> bs[j].region != req.parent && !returnable[j]
    ensures ScanBindings(req, bs, returnable, remaining, skip, forest) ==
            ScanBindings(req, bs[k..], returnable[k..], remaining, skip, forest)
    decreases k
  {
    if k > 0 {
      assert bs[1..][k - 1..] == bs[k..];
      assert returnable[1..][k - 1..] == returnable[k..];
      ScanSkipsPrefix(req, bs[1..], returnable[1..], remaining, skip, forest, k - 1);
    }
  }

  /** A successful check is justified: the request was pre-verified, or the
      bindings jointly grant every field, or a returnable created requirement
      exists, or the context created every requested field. */
  lemma CheckRegionPrivilegeSound(regions: seq<RegionRequirement>, created: seq<RegionRequirement>,
                                  returnable: seq<bool>, createdFields: set<(FieldSpace, FieldId)>,
                                  req: RegionRequirement, skip: bool, forest: Forest)
    requires |created| == |returnable|
    requires CheckRegionPrivilege(regions, created, returnable, createdFields, req, skip, forest) == NoError
    ensures req.verified || Covered(req, regions + created) || HasReturnable(returnable) ||
            AllFieldsCreated(req, createdFields)
  {
    if !req.verified {
      ScanFacts(req, regions + created, NotReturnable(|regions|) + returnable, req.fields, skip, forest);
      HasReturnableAfterOriginals(|regions|, returnable);
    }
  }

  /** BAD_PARENT_REGION means no justification exists. */
  lemma CheckRegionPrivilegeBadParent(regions: seq<RegionRequirement>, created: seq<RegionRequirement>,
                                      returnable: seq<bool>, createdFields: set<(FieldSpace, FieldId)>,
                                      req: RegionRequirement, skip: bool, forest: Forest)
    requires |created| == |returnable|
    requires CheckRegionPrivilege(regions, created, returnable, createdFields, req, skip, forest) == BadParentRegion
    ensures !req.verified && !Covered(req, regions + created) && !HasReturnable(returnable) &&
            !AllFieldsCreated(req, createdFields)
  {
    ScanFacts(req, regions + created, NotReturnable(|regions|) + returnable, req.fields, skip, forest);
    HasReturnableAfterOriginals(|regions|, returnable);
  }

  /** Conversely, without path or privilege errors and without any
      justification, the check reports BAD_PARENT_REGION. */
  lemma CheckRegionPrivilegeBadParentConverse(regions: seq<RegionRequirement>, created: seq<RegionRequirement>,
                                              returnable: seq<bool>, createdFields: set<(FieldSpace, FieldId)>,
                                              req: RegionRequirement, skip: bool, forest: Forest)
    requires |created| == |returnable|
    requires NoHardError(req, regions + created, skip, forest)
    requires !req.verified && !Covered(req, regions + created) && !HasReturnable(returnable) &&
             !AllFieldsCreated(req, createdFields)
    ensures CheckRegionPrivilege(regions, created, returnable, createdFields, req, skip, forest) == BadParentRegion
  {
    ScanFacts(req, regions + created, NotReturnable(|regions|) + returnable, req.fields, skip, forest);
    HasReturnableAfterOriginals(|regions|, returnable);
  }

  /** When no binding naming the parent raises a path or privilege error, any
      justification makes the check succeed. */
  lemma CheckRegionPrivilegeComplete(regions: seq<RegionRequirement>, created: seq<RegionRequirement>,
                                     returnable: seq<bool>, createdFields: set<(FieldSpace, FieldId)>,
                                     req: RegionRequirement, skip: bool, forest: Forest)
    requires |created| == |returnable|
    requires NoHardError(req, regions + created, skip, forest)
    requires Covered(req, regions + created) || HasReturnable(returnable) || AllFieldsCreated(req, createdFields)
    ensures CheckRegionPrivilege(regions, created, returnable, createdFields, req, skip, forest) == NoError
  {
    if !req.verified {
      ScanFacts(req, regions + created, NotReturnable(|regions|) + returnable, req.fields, skip, forest);
      HasReturnableAfterOriginals(|regions|, returnable);
    }
  }

  /** Any error other than BAD_PARENT_REGION is the path or privilege error
      of the request's handle type, and a privilege error names a binding at
      fault. */
  lemma CheckRegionPrivilegeHardError(regions: seq<RegionRequirement>, created: seq<RegionRequirement>,
                                      returnable: seq<bool>, createdFields: set<(FieldSpace, FieldId)>,
                                      req: RegionRequirement, skip: bool, forest: Forest)
    requires |created| == |returnable|
    requires CheckRegionPrivilege(regions, created, returnable, createdFields, req, skip, forest) !in {NoError, BadParentRegion}
    ensures CheckRegionPrivilege(regions, created, returnable, createdFields, req, skip, forest) in
              {PathError(req), PrivilegeError(req)}
    ensures CheckRegionPrivilege(regions, created, returnable, createdFields, req, skip, forest) == PrivilegeError(req) ==>
              exists i :: 0 <= i < |regions + created| && (regions + created)[i].region == req.parent &&
                          !PrivilegeAdmits(req, (regions + created)[i], skip) &&
                          (regions + created)[i].fields * req.fields != {}
  {
    var bs, flags := regions + created, NotReturnable(|regions|) + returnable;
    ScanFacts(req, bs, flags, req.fields, skip, forest);
    if CheckRegionPrivilege(regions, created, returnable, createdFields, req, skip, forest) == PrivilegeError(req) {
      ScanPrivilegeError(req, bs, flags, req.fields, skip, forest);
    }
  }

  /** Requested privilege bits outside the privilege of the first binding
      that names the parent give the privilege error, unless that binding is
      WRITE_DISCARD or the check is skipped, provided no returnable created
      requirement comes before it. */
  lemma CheckRegionPrivilegeExceeds(regions: seq<RegionRequirement>, created: seq<RegionRequirement>,
                                    returnable: seq<bool>, createdFields: set<(FieldSpace, FieldId)>,
                                    req: RegionRequirement, skip: bool, forest: Forest, k: nat)
    requires |created| == |returnable|
    requires k < |regions| + |created| && !req.verified
    requires forall j :: 0 <= j < k ==> (regions + created)[j].region != req.parent
    requires forall j :: 0 <= j < |returnable| && |regions| + j < k ==> !returnable[j]
    requires (regions + created)[k].region == req.parent && PathExists(req, forest)
    requires (regions + created)[k].fields * req.fields != {}
    requires !skip && Exceeds(req.privilege, (regions + created)[k].privilege)
    requires (regions + created)[k].privilege != WRITE_DISCARD
    ensures CheckRegionPrivilege(regions, created, returnable, createdFields, req, skip, forest) == PrivilegeError(req)
  {
    var bs, flags := regions + created, NotReturnable(|regions|) + returnable;
    forall j | 0 <= j < k ensures bs[j].region != req.parent && !flags[j] {
      if j >= |regions| {
        assert flags[j] == returnable[j - |regions|];
        assert !returnable[j - |regions|];
      }
    }
    ScanSkipsPrefix(req, bs, flags, req.fields, skip, forest, k);
    assert bs[k..][0] == bs[k];
  }

  // ---------------------------------------------------------------------
  // Parent requirement search (may widen or add created requirements)

  /** A requirement of the task itself dominates `req` when it names the
      parent, grants the privilege (unless not checked) and every field. */
  predicate DominatesOriginal(req: RegionRequirement, our: RegionRequirement, checkPrivilege: bool): (r: bool)
    ensures r && checkPrivilege ==> !Exceeds(req.privilege, our.privilege)
    ensures r ==> our.fields * req.fields == req.fields
  {
    our.region == req.parent && (!checkPrivilege || Within(req.privilege, our.privilege)) &&
    req.fields <= our.fields
  }

  /** The first original requirement at or after `from` that dominates `req`. */
  function FirstDominating(regions: seq<RegionRequirement>, req: RegionRequirement, checkPrivilege: bool,
                           from: nat): (r: Option<nat>)
    requires from <= |regions|
    decreases |regions| - from
    ensures r.Some? ==> from <= r.value < |regions| && DominatesOriginal(req, regions[r.value], checkPrivilege)
    ensures r.Some? ==> forall j :: from <= j < r.value ==> !DominatesOriginal(req, regions[j], checkPrivilege)
    ensures r.None? ==> forall j :: from <= j < |regions| ==> !DominatesOriginal(req, regions[j], checkPrivilege)
  {
    if from == |regions| then None
    else if DominatesOriginal(req, regions[from], checkPrivilege) then Some(from)
    else FirstDominating(regions, req, checkPrivilege, from + 1)
  }

  /** Whether field `f` is reached by the ascending walk over `reqFields`
      before the first field that is neither held nor created. */
  predicate Reached(f: FieldId, our: set<FieldId>, reqFields: set<FieldId>, createdFs: set<FieldId>)
  {
    forall g :: g in reqFields && g <= f ==> g in our || g in createdFs
  }

  /** Widening a non-returnable created requirement's fields while checking
      that it holds every requested field, walking the requested fields in
      ascending order: a missing field the context created is added, the
      first missing field it did not create ends the walk with a failure.
      The fields added before that failure stay added. */
  function WidenFields(our: set<FieldId>, reqFields: set<FieldId>, createdFs: set<FieldId>): (r: (set<FieldId>, bool))
    ensures r.1 <==> forall f :: f in reqFields ==> f in our || f in createdFs
    ensures our <= r.0 <= our + reqFields
    ensures r.0 - our <= createdFs
    ensures r.1 ==> reqFields <= r.0
  {
    (our + set f | f in reqFields && Reached(f, our, reqFields, createdFs),
     forall f :: f in reqFields ==> f in our || f in createdFs)
  }

  /** A created requirement can serve `req` when it names the parent and
      grants its privilege (unless not checked). */
  predicate CreatedCandidate(req: RegionRequirement, our: RegionRequirement, checkPrivilege: bool)
  {
    our.region == req.parent && (!checkPrivilege || Within(req.privilege, our.privilege))
  }

  /** The walk over the created requirements from position `i`, widening field
      sets as it goes. Returns the updated requirements and the position found. */
  function ScanCreatedParent(created: seq<RegionRequirement>, returnable: seq<bool>, createdFs: set<FieldId>,
                             req: RegionRequirement, checkPrivilege: bool, i: nat): (r: (seq<RegionRequirement>, Option<nat>))
    requires |created| == |returnable| && i <= |created|
    decreases |created| - i
    ensures |r.0| == |created|
    ensures r.1.Some? ==> i <= r.1.value < |created| && CreatedCandidate(req, r.0[r.1.value], checkPrivilege) &&
                          req.fields <= r.0[r.1.value].fields
  {
    if i == |created| then (created, None)
    else
      var our := created[i];
      if !CreatedCandidate(req, our, checkPrivilege) then
        ScanCreatedParent(created, returnable, createdFs, req, checkPrivilege, i + 1)
      else if returnable[i] then
        (created[i := our.(fields := our.fields + req.fields)], Some(i))
      else
        var (widened, dominated) := WidenFields(our.fields, req.fields, createdFs);
        var next := created[i := our.(fields := widened)];
        if dominated then (next, Some(i))
        else ScanCreatedParent(next, returnable, createdFs, req, checkPrivilege, i + 1)
  }

  /** The walk from `i` changes only field sets, and only at or after `i`:
      it widens each within the requested fields, and a non-returnable one
      only by fields the context created. */
  lemma {:induction false} ScanCreatedParentShape(created: seq<RegionRequirement>, returnable: seq<bool>,
      createdFs: set<FieldId>, req: RegionRequirement, checkPrivilege: bool, i: nat)
    requires |created| == |returnable| && i <= |created|
    ensures var r := ScanCreatedParent(created, returnable, createdFs, req, checkPrivilege, i).0;
            (forall j :: 0 <= j < i ==> r[j] == created[j]) &&
            (forall j :: 0 <= j < |created| ==>
               r[j] == created[j].(fields := r[j].fields) &&
               created[j].fields <= r[j].fields <= created[j].fields + req.fields) &&
            (forall j :: 0 <= j < |created| && !returnable[j] ==> r[j].fields - created[j].fields <= createdFs)
    decreases |created| - i
  {
    if i < |created| {
      var our := created[i];
      if !CreatedCandidate(req, our, checkPrivilege) {
        ScanCreatedParentShape(created, returnable, createdFs, req, checkPrivilege, i + 1);
      } else if !returnable[i] {
        var w := WidenFields(our.fields, req.fields, createdFs);
        if !w.1 {
          var next := created[i := our.(fields := w.0)];
          assert ScanCreatedParent(created, returnable, createdFs, req, checkPrivilege, i) ==
                 ScanCreatedParent(next, returnable, createdFs, req, checkPrivilege, i + 1);
          ScanCreatedParentShape(next, returnable, createdFs, req, checkPrivilege, i + 1);
        }
      }
    }
  }

  /** A created requirement that the walk accepts: a candidate that is
      returnable, or that holds or can be widened to every requested field. */
  predicate Qualifies(req: RegionRequirement, our: RegionRequirement, returnable: bool, createdFs: set<FieldId>,
                      checkPrivilege: bool)
  {
    CreatedCandidate(req, our, checkPrivilege) &&
    (returnable || forall f :: f in req.fields ==> f in our.fields || f in createdFs)
  }

  /** The walk from `i` finds nothing only when no created requirement from
      `i` on qualifies. */
  lemma {:induction false} ScanCreatedParentNone(created: seq<RegionRequirement>, returnable: seq<bool>,
      createdFs: set<FieldId>, req: RegionRequirement, checkPrivilege: bool, i: nat)
    requires |created| == |returnable| && i <= |created|
    requires ScanCreatedParent(created, returnable, createdFs, req, checkPrivilege, i).1.None?
    ensures forall j :: i <= j < |created| ==> !Qualifies(req, created[j], returnable[j], createdFs, checkPrivilege)
    decreases |created| - i
  {
    if i < |created| {
      var our := created[i];
      if !CreatedCandidate(req, our, checkPrivilege) {
        assert ScanCreatedParent(created, returnable, createdFs, req, checkPrivilege, i + 1).1.None?;
        ScanCreatedParentNone(created, returnable, createdFs, req, checkPrivilege, i + 1);
      } else {
        var w := WidenFields(our.fields, req.fields, createdFs);
        var next := created[i := our.(fields := w.0)];
        assert ScanCreatedParent(next, returnable, createdFs, req, checkPrivilege, i + 1).1.None?;
        ScanCreatedParentNone(next, returnable, createdFs, req, checkPrivilege, i + 1);
        assert forall j :: i < j < |created| ==> next[j] == created[j];
      }
    }
  }

  /** A position `k` the walk from `i` returns is the first one from `i` on
      whose created requirement qualifies. */
  lemma {:induction false} ScanCreatedParentFirst(created: seq<RegionRequirement>, returnable: seq<bool>,
      createdFs: set<FieldId>, req: RegionRequirement, checkPrivilege: bool, i: nat, k: nat)
    requires |created| == |returnable| && i <= |created|
    requires ScanCreatedParent(created, returnable, createdFs, req, checkPrivilege, i).1 == Some(k)
    ensures i <= k < |created| && Qualifies(req, created[k], returnable[k], createdFs, checkPrivilege)
    ensures forall j :: i <= j < k ==> !Qualifies(req, created[j], returnable[j], createdFs, checkPrivilege)
    decreases |created| - i
  {
    var our := created[i];
    if !CreatedCandidate(req, our, checkPrivilege) {
      assert ScanCreatedParent(created, returnable, createdFs, req, checkPrivilege, i + 1).1 == Some(k);
      ScanCreatedParentFirst(created, returnable, createdFs, req, checkPrivilege, i + 1, k);
    } else if !returnable[i] {
      var w := WidenFields(our.fields, req.fields, createdFs);
      if !w.1 {
        var next := created[i := our.(fields := w.0)];
        assert ScanCreatedParent(next, returnable, createdFs, req, checkPrivilege, i + 1).1 == Some(k);
        ScanCreatedParentFirst(next, returnable, createdFs, req, checkPrivilege, i + 1, k);
        assert forall j :: i < j < |created| ==> next[j] == created[j];
      }
    }
  }

  /** The state the parent search leaves behind and the index it returns
      (-1 when no requirement of the context covers the request). */
  datatype ParentSearch = ParentSearch(created: seq<RegionRequirement>, returnable: seq<bool>,
                                       physical: seq<PhysicalRegion>, index: int)

  /** The parent requirement search: the task's own requirements first, then
      the created ones (widening them), and as last resort a new
      non-returnable created requirement on the tree's root when the context
      created every requested field. */
  function FindParentRegionReq(regions: seq<RegionRequirement>, created: seq<RegionRequirement>,
                               returnable: seq<bool>, physical: seq<PhysicalRegion>,
                               createdFields: set<(FieldSpace, FieldId)>, taskExecuted: bool,
                               req: RegionRequirement, checkPrivilege: bool, forest: Forest): (r: ParentSearch)
    requires |created| == |returnable|
    ensures |r.created| == |r.returnable|
    ensures -1 <= r.index < |regions| + |r.created|
    ensures r.index >= 0 ==> req.fields <= (regions + r.created)[r.index].fields
    ensures 0 <= r.index < |regions| ==>
              DominatesOriginal(req, regions[r.index], checkPrivilege) &&
              forall j :: 0 <= j < r.index ==> !DominatesOriginal(req, regions[j], checkPrivilege)
    ensures r.index == -1 || r.index >= |regions| ==>
              forall j :: 0 <= j < |regions| ==> !DominatesOriginal(req, regions[j], checkPrivilege)
    ensures r.index == -1 ==> !(req.fields <= Ledger.FieldsOf(createdFields, req.parent.fieldSpace))
    ensures |r.created| == |created| ==> r.returnable == returnable && r.physical == physical
    ensures |r.created| != |created| ==>
              |r.created| == |created| + 1 && r.returnable == returnable + [false] &&
              r.index == |regions| + |r.created| - 1 &&
              r.created[|created|] == CreatedRequirement(forest.treeRoot(req.parent.treeId)).(fields := req.fields) &&
              req.fields <= Ledger.FieldsOf(createdFields, req.parent.fieldSpace) &&
              r.physical == (if taskExecuted then physical else physical + [PhysicalRegion(r.created[|created|], false)])
    ensures forall j :: 0 <= j < |created| ==>
              r.created[j] == created[j].(fields := r.created[j].fields) &&
              created[j].fields <= r.created[j].fields <= created[j].fields + req.fields
    ensures forall j :: 0 <= j < |created| && !returnable[j] ==>
              r.created[j].fields - created[j].fields <= Ledger.FieldsOf(createdFields, req.parent.fieldSpace)
  {
    match FirstDominating(regions, req, checkPrivilege, 0)
    case Some(i) => ParentSearch(created, returnable, physical, i)
    case None =>
      var createdFs := Ledger.FieldsOf(createdFields, req.parent.fieldSpace);
      ScanCreatedParentShape(created, returnable, createdFs, req, checkPrivilege, 0);
      var (next, found) := ScanCreatedParent(created, returnable, createdFs, req, checkPrivilege, 0);
      match found
      case Some(j) => ParentSearch(next, returnable, physical, |regions| + j)
      case None =>
        if !(req.fields <= createdFs) then ParentSearch(next, returnable, physical, -1)
        else
          var synthesized := CreatedRequirement(forest.treeRoot(req.parent.treeId)).(fields := req.fields);
          ParentSearch(next + [synthesized], returnable + [false],
                       if taskExecuted then physical else physical + [PhysicalRegion(synthesized, false)],
                       |regions| + |next|)
  }

  /** When no task requirement dominates, the search returns the first
      qualifying created requirement; it gives -1 or synthesises a new one
      only when no created requirement qualifies. */
  lemma FindParentRegionReqFirstCreated(regions: seq<RegionRequirement>, created: seq<RegionRequirement>,
                                        returnable: seq<bool>, physical: seq<PhysicalRegion>,
                                        createdFields: set<(FieldSpace, FieldId)>, taskExecuted: bool,
                                        req: RegionRequirement, checkPrivilege: bool, forest: Forest)
    requires |created| == |returnable|
    ensures var r := FindParentRegionReq(regions, created, returnable, physical, createdFields, taskExecuted,
                                         req, checkPrivilege, forest);
            var createdFs := Ledger.FieldsOf(createdFields, req.parent.fieldSpace);
            (|regions| <= r.index < |regions| + |created| ==>
               Qualifies(req, created[r.index - |regions|], returnable[r.index - |regions|], createdFs,
                         checkPrivilege) &&
               forall j :: 0 <= j < r.index - |regions| ==>
                 !Qualifies(req, created[j], returnable[j], createdFs, checkPrivilege)) &&
            (r.index == -1 || |r.created| != |created| ==>
               forall j :: 0 <= j < |created| ==> !Qualifies(req, created[j], returnable[j], createdFs, checkPrivilege))
  {
    var createdFs := Ledger.FieldsOf(createdFields, req.parent.fieldSpace);
    var found := ScanCreatedParent(created, returnable, createdFs, req, checkPrivilege, 0).1;
    if found.Some? {
      ScanCreatedParentFirst(created, returnable, createdFs, req, checkPrivilege, 0, found.value);
    } else {
      ScanCreatedParentNone(created, returnable, createdFs, req, checkPrivilege, 0);
    }
  }

  /** As written, a failed match against a non-returnable created requirement
      still leaves behind the created fields it inserted before the field
      that made it fail. */
  lemma FailedMatchStillWidens()
    ensures var region := LogicalRegion(1, 1, 1);
            var our := CreatedRequirement(region);
            var req := our.(fields := {3, 5});
            var r := FindParentRegionReq([], [our], [false], [], {(1, 3)}, true, req, true,
                                         Forest({}, {}, _ => region, (_, _) => NoDependence));
            r.index == -1 && r.created[0].fields == {3}
  {
    var region := LogicalRegion(1, 1, 1);
    var our := CreatedRequirement(region);
    var req := our.(fields := {3, 5});
    var fs := Ledger.FieldsOf({(1, 3)}, 1);
    assert 3 in fs;
    assert 5 !in fs;
    var w := WidenFields({}, {3, 5}, fs);
    assert Reached(3, {}, {3, 5}, fs);
    assert !Reached(5, {}, {3, 5}, fs);
    assert w.0 == {3};
  }

  // ---------------------------------------------------------------------
  // Dependence between a mapped requirement of the context and another one

  /** Whether the requirement `req` of another operation conflicts with the
      context's requirement `ourReq` (tree `ourTid`, index space `ourSpace`):
      same tree, a path between the spaces, shared fields, and a dependence
      that is neither none nor simultaneous. */
  function CheckRegionDependence(ourTid: TreeId, ourSpace: IndexSpace, ourReq: RegionRequirement,
                                 ourUsage: RegionUsage, req: RegionRequirement, forest: Forest): (r: bool)
    ensures r ==> ourReq.fields * req.fields != {}
    ensures r ==> forest.dependence(ourUsage, UsageOf(req)) !in {NoDependence, SimultaneousDependence}
    ensures r ==> if req.handleType == Singular || req.handleType == RegProjection
                  then ourTid == req.region.treeId && (ourSpace, req.region.indexSpace) in forest.indexPaths
                  else ourTid == req.partition.treeId &&
                       (ourSpace, req.partition.indexPartition) in forest.partitionPaths
    ensures ((if req.handleType == Singular || req.handleType == RegProjection
              then ourTid == req.region.treeId && (ourSpace, req.region.indexSpace) in forest.indexPaths
              else ourTid == req.partition.treeId &&
                   (ourSpace, req.partition.indexPartition) in forest.partitionPaths) &&
             ourReq.fields * req.fields != {} &&
             forest.dependence(ourUsage, UsageOf(req)) !in {NoDependence, SimultaneousDependence}) ==> r
  {
    var reachable :=
      if req.handleType == Singular || req.handleType == RegProjection then
        ourTid == req.region.treeId && (ourSpace, req.region.indexSpace) in forest.indexPaths
      else
        ourTid == req.partition.treeId && (ourSpace, req.partition.indexPartition) in forest.partitionPaths;
    if !reachable then false
    else if ourReq.fields * req.fields == {} then false
    else
      match forest.dependence(ourUsage, UsageOf(req))
      case NoDependence => false
      case SimultaneousDependence => false
      case _ => true
  }

  /** Asking for more fields, on either side and with all else equal, never
      removes a dependence. */
  lemma DependenceGrowsWithFields(ourTid: TreeId, ourSpace: IndexSpace, ourReq: RegionRequirement,
                                  ourUsage: RegionUsage, req: RegionRequirement,
                                  ourMore: set<FieldId>, more: set<FieldId>, forest: Forest)
    requires ourReq.fields <= ourMore && req.fields <= more
    ensures CheckRegionDependence(ourTid, ourSpace, ourReq, ourUsage, req, forest) ==>
            CheckRegionDependence(ourTid, ourSpace, ourReq.(fields := ourMore), ourUsage,
                                  req.(fields := more), forest)
  {
    if CheckRegionDependence(ourTid, ourSpace, ourReq, ourUsage, req, forest) {
      var f :| f in ourReq.fields * req.fields;
      assert f in ourMore * more;
    }
  }

  /** A forest whose dependence analysis lets two readers through, as any
      analysis of read-only usages does. */
  ghost predicate ReadersCommute(forest: Forest)
  {
    forall u: RegionUsage, v: RegionUsage ::
      u.privilege == READ_ONLY && v.privilege == READ_ONLY ==> forest.dependence(u, v) == NoDependence
  }

  /** Under such an analysis a read-only requirement never conflicts with a
      read-only mapped region, whatever their trees, paths and fields. */
  lemma ReadersNeverConflict(ourTid: TreeId, ourSpace: IndexSpace, ourReq: RegionRequirement,
                             ourUsage: RegionUsage, req: RegionRequirement, forest: Forest)
    requires ReadersCommute(forest) && ourUsage.privilege == READ_ONLY && req.privilege == READ_ONLY
    ensures !CheckRegionDependence(ourTid, ourSpace, ourReq, ourUsage, req, forest)
  {
    assert forest.dependence(ourUsage, UsageOf(req)) == NoDependence;
  }

  // ---------------------------------------------------------------------
  // Created requirement deleted?

  /** Whether a created requirement's region or field has been deleted since:
      a requirement on a region still in the created set is live; otherwise it
      is live only when it names exactly one field that is still created. */
  function WasCreatedRequirementDeleted(createdRegions: set<LogicalRegion>, createdFields: set<(FieldSpace, FieldId)>,
                                        req: RegionRequirement): (r: bool)
    requires req.region in createdRegions || req.fields != {}
    ensures !r <==> req.region in createdRegions ||
                    (|req.fields| == 1 && forall f :: f in req.fields ==> (req.region.fieldSpace, f) in createdFields)
    ensures req.region !in createdRegions && |req.fields| > 1 ==> r
  {
    if req.region in createdRegions then false
    else if |req.fields| > 1 then true
    else !(forall f :: f in req.fields ==> (req.region.fieldSpace, f) in createdFields)
  }
}
