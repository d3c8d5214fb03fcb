/** The task context as an object: one mutable record per running task that
    holds the resource ledgers, the table of the task's own and created
    region requirements, the child-operation sets, the flow-control state,
    the caches and the trace state. Each method changes the fields the
    corresponding runtime entry point changes, and its contract ties the new
    state to the pure transition of the old state defined in the modules
    this one imports. Locks are not modelled: each method is one atomic step. */
module Context {
  import opened LegionTypes
  import Ledger
  import Requirements
  import Lifecycle
  import FlowControl
  import Caches
  import Extras

  /** The created requirements for regions added in the order given. */
  function CreatedRequirementsFor(order: seq<LogicalRegion>): (r: seq<RegionRequirement>)
    ensures |r| == |order|
    ensures forall i :: 0 <= i < |order| ==> r[i] == CreatedRequirement(order[i])
  {
    seq(|order|, i requires 0 <= i < |order| => CreatedRequirement(order[i]))
  }

  /** The unmapped physical regions for regions added in the order given. */
  function CreatedPhysicalFor(order: seq<LogicalRegion>): (r: seq<PhysicalRegion>)
    ensures |r| == |order|
    ensures forall i :: 0 <= i < |order| ==> r[i] == PhysicalRegion(CreatedRequirement(order[i]), false)
  {
    seq(|order|, i requires 0 <= i < |order| => PhysicalRegion(CreatedRequirement(order[i]), false))
  }

  /** The elements of a set, each once, in some order. */
  method Enumerate<T>(s: set<T>) returns (order: seq<T>)
    ensures |order| == |s| && forall x :: x in s <==> x in order
    ensures forall i, j :: 0 <= i < j < |order| ==> order[i] != order[j]
  {
    order := [];
    var todo := s;
    while todo != {}
      invariant todo <= s
      invariant |order| == |s - todo| && forall x :: x in s - todo <==> x in order
      invariant forall i, j :: 0 <= i < j < |order| ==> order[i] != order[j]
      decreases todo
    {
      var x :| x in todo;
      assert s - (todo - {x}) == (s - todo) + {x};
      order := order + [x];
      todo := todo - {x};
    }
  }

  /** Returnable flags for `n` created regions. */
  function AllReturnable(n: nat): (r: seq<bool>)
    ensures |r| == n && forall i :: 0 <= i < n ==> r[i]
  {
    seq(n, _ => true)
  }

  lemma AppendCreated(order: seq<LogicalRegion>, h: LogicalRegion)
    ensures CreatedRequirementsFor(order + [h]) == CreatedRequirementsFor(order) + [CreatedRequirement(h)]
    ensures CreatedPhysicalFor(order + [h]) == CreatedPhysicalFor(order) + [PhysicalRegion(CreatedRequirement(h), false)]
    ensures AllReturnable(|order| + 1) == AllReturnable(|order|) + [true]
  {
  }

  /** The requirement table a context keeps beside its task's own
      requirements: the created requirements, their returnable flags, and
      the physical regions (the task's, then those of created requirements). */
  datatype Table = Table(created: seq<RegionRequirement>, returnable: seq<bool>, physical: seq<PhysicalRegion>)

  /** Adding the created requirement of a region the context made: returnable,
      and with an unmapped physical region while the task body runs. */
  function AddCreated(t: Table, taskExecuted: bool, h: LogicalRegion): (r: Table)
    ensures |r.created| == |t.created| + 1 && |r.returnable| == |t.returnable| + 1
    ensures |r.physical| == |t.physical| + (if taskExecuted then 0 else 1)
    ensures r.created[..|t.created|] == t.created && r.created[|t.created|] == CreatedRequirement(h)
    ensures r.returnable[..|t.returnable|] == t.returnable && r.returnable[|t.returnable|]
    ensures taskExecuted ==> r.physical == t.physical
    ensures !taskExecuted ==> r.physical[..|t.physical|] == t.physical &&
                              r.physical[|t.physical|] == PhysicalRegion(CreatedRequirement(h), false)
  {
    Table(t.created + [CreatedRequirement(h)], t.returnable + [true],
          if taskExecuted then t.physical else t.physical + [PhysicalRegion(CreatedRequirement(h), false)])
  }

  /** Adding the created requirements of several regions, in order. */
  function AddCreatedAll(t: Table, taskExecuted: bool, order: seq<LogicalRegion>): (r: Table)
    ensures |r.created| == |t.created| + |order| && |r.returnable| == |t.returnable| + |order|
    ensures |r.physical| == |t.physical| + (if taskExecuted then 0 else |order|)
    decreases |order|
  {
    if order == [] then t
    else AddCreated(AddCreatedAll(t, taskExecuted, order[..|order| - 1]), taskExecuted, order[|order| - 1])
  }

  /** Adding a batch appends one read-write, field-less, returnable created
      requirement per region, in the order of the batch, and one unmapped
      physical region each while the task body runs. */
  lemma {:induction false} AddCreatedAllShape(t: Table, taskExecuted: bool, order: seq<LogicalRegion>)
    ensures var r := AddCreatedAll(t, taskExecuted, order);
            r.created == t.created + CreatedRequirementsFor(order) &&
            r.returnable == t.returnable + AllReturnable(|order|) &&
            r.physical == t.physical + (if taskExecuted then [] else CreatedPhysicalFor(order))
    decreases |order|
  {
    if order != [] {
      var init, h := order[..|order| - 1], order[|order| - 1];
      assert init + [h] == order;
      AddCreatedAllShape(t, taskExecuted, init);
      AppendCreated(init, h);
      var prev := AddCreatedAll(t, taskExecuted, init);
      assert AddCreatedAll(t, taskExecuted, order) == AddCreated(prev, taskExecuted, h);
      FlowControl.Associative(t.created, CreatedRequirementsFor(init), [CreatedRequirement(h)]);
      FlowControl.Associative(t.returnable, AllReturnable(|init|), [true]);
      if !taskExecuted {
        FlowControl.Associative(t.physical, CreatedPhysicalFor(init), [PhysicalRegion(CreatedRequirement(h), false)]);
      }
    }
  }

  /** The mapped physical regions, in order. */
  function MappedRegions(ps: seq<PhysicalRegion>): (r: seq<PhysicalRegion>)
    ensures |r| <= |ps|
    ensures forall k :: 0 <= k < |r| ==> r[k].mapped && r[k] in ps
    ensures forall i :: 0 <= i < |ps| && ps[i].mapped ==> ps[i] in r
    decreases |ps|
  {
    if ps == [] then []
    else MappedRegions(ps[..|ps| - 1]) + (if ps[|ps| - 1].mapped then [ps[|ps| - 1]] else [])
  }

  /** Every physical region after unmapping. */
  function AllUnmapped(ps: seq<PhysicalRegion>): (r: seq<PhysicalRegion>)
    ensures |r| == |ps|
    ensures forall i :: 0 <= i < |ps| ==> r[i] == ps[i].(mapped := false)
  {
    seq(|ps|, i requires 0 <= i < |ps| => ps[i].(mapped := false))
  }


  class TaskContext {
    // What the context was made with.
    const kind: Caches.Kind
    const localSpace: AddressSpace
    const ownerOf: NodeId -> AddressSpace
    const regions: seq<RegionRequirement>
    const indexes: seq<IndexSpaceRequirement>

    // Resource ledgers.
    var createdRegions: set<LogicalRegion>
    var deletedRegions: set<LogicalRegion>
    var createdFields: set<(FieldSpace, FieldId)>
    var deletedFields: set<(FieldSpace, FieldId)>
    var createdFieldSpaces: set<FieldSpace>
    var deletedFieldSpaces: set<FieldSpace>
    var createdIndexSpaces: set<IndexSpace>
    var deletedIndexSpaces: set<IndexSpace>
    var createdIndexPartitions: set<IndexPartitionId>
    var deletedIndexPartitions: set<IndexPartitionId>

    // Requirement table: created requirements, parallel returnable flags,
    // and the physical regions of the task followed by those of created
    // requirements made while the task body runs.
    var createdRequirements: seq<RegionRequirement>
    var returnablePrivileges: seq<bool>
    var physicalRegions: seq<PhysicalRegion>

    // Children.
    var executingChildren: set<OpId>
    var executedChildren: set<OpId>
    var completeChildren: set<OpId>
    var taskExecuted: bool
    var childrenCompleteInvoked: bool
    var childrenCommitInvoked: bool
    var totalChildrenCount: nat
    var totalCloseCount: nat

    // Flow control.
    var config: FlowControl.ContextConfig
    var outstandingChildrenCount: nat
    var validWaitEvent: bool
    var windowWait: EventId
    var frameEvents: seq<EventId>
    var currentlyActive: bool
    var outstandingSubtasks: nat
    var pendingSubtasks: nat
    var pendingFrames: nat
    var contextOrderEvent: EventId

    // Caches.
    var regionTreeOwners: map<NodeId, Caches.OwnerRecord>
    var pendingVersionOwnerRequests: map<NodeId, EventId>
    var instanceTopViews: map<ManagerId, ViewId>
    var pendingTopViews: map<ManagerId, Option<EventId>>
    var safeCastDomains: map<IndexSpace, Extras.Domain>

    // Traces: the one being recorded and whether each known trace is fixed.
    var currentTrace: Option<TraceId>
    var traces: map<TraceId, bool>

    // Which of the task's regions are virtually mapped.
    var virtualMapped: seq<bool>

    function RegionLedger(): Ledger.Ledger<LogicalRegion>
      reads this`createdRegions, this`deletedRegions
    {
      Ledger.Ledger(createdRegions, deletedRegions)
    }

    function FieldLedger(): Ledger.Ledger<(FieldSpace, FieldId)>
      reads this`createdFields, this`deletedFields
    {
      Ledger.Ledger(createdFields, deletedFields)
    }

    function FieldSpaceLedger(): Ledger.Ledger<FieldSpace>
      reads this`createdFieldSpaces, this`deletedFieldSpaces
    {
      Ledger.Ledger(createdFieldSpaces, deletedFieldSpaces)
    }

    function IndexSpaceLedger(): Ledger.Ledger<IndexSpace>
      reads this`createdIndexSpaces, this`deletedIndexSpaces
    {
      Ledger.Ledger(createdIndexSpaces, deletedIndexSpaces)
    }

    function PartitionLedger(): Ledger.Ledger<IndexPartitionId>
      reads this`createdIndexPartitions, this`deletedIndexPartitions
    {
      Ledger.Ledger(createdIndexPartitions, deletedIndexPartitions)
    }

    function RequirementTable(): Table
      reads this`createdRequirements, this`returnablePrivileges, this`physicalRegions
    {
      Table(createdRequirements, returnablePrivileges, physicalRegions)
    }

    function Children(): Lifecycle.Children
      reads this`executingChildren, this`executedChildren, this`completeChildren,
        this`taskExecuted, this`childrenCompleteInvoked, this`childrenCommitInvoked
    {
      Lifecycle.Children(executingChildren, executedChildren, completeChildren,
                         taskExecuted, childrenCompleteInvoked, childrenCommitInvoked)
    }

    function Window(): FlowControl.Window
      reads this`outstandingChildrenCount, this`validWaitEvent, this`windowWait
    {
      FlowControl.Window(outstandingChildrenCount, validWaitEvent, windowWait)
    }

    function Gate(): FlowControl.Gate
      reads this`currentlyActive, this`outstandingSubtasks, this`pendingSubtasks, this`pendingFrames,
        this`contextOrderEvent
    {
      FlowControl.Gate(currentlyActive, outstandingSubtasks, pendingSubtasks, pendingFrames, contextOrderEvent)
    }

    function Owners(): Caches.Owners
      reads this`regionTreeOwners, this`pendingVersionOwnerRequests
    {
      Caches.Owners(regionTreeOwners, pendingVersionOwnerRequests)
    }

    function TopViews(): Caches.TopViews
      reads this`instanceTopViews, this`pendingTopViews
    {
      Caches.TopViews(instanceTopViews, pendingTopViews)
    }

    function Traces(): Extras.Traces
      reads this`currentTrace, this`traces
    {
      Extras.Traces(currentTrace, traces)
    }

    /** The context's invariant: the returnable flags run parallel to the
        created requirements; while the task body runs there is one physical
        region per requirement of the combined table; no child is in two
        sets; there is one virtual-mapping flag per task requirement. The
        caches and the traces keep invariants of their own (`OwnersValid`,
        `ViewsValid`, `TracesValid`): only the methods that change those
        fields mention them, and every other method leaves them alone. */
    ghost predicate Valid()
      reads this`createdRequirements, this`returnablePrivileges, this`physicalRegions, this`taskExecuted,
            this`executingChildren, this`executedChildren, this`completeChildren,
            this`childrenCompleteInvoked, this`childrenCommitInvoked, this`virtualMapped
    {
      TableValid() && StateValid()
    }

    /** The requirement-table part of `Valid`. */
    ghost predicate TableValid()
      reads this`createdRequirements, this`returnablePrivileges, this`physicalRegions, this`taskExecuted
    {
      |createdRequirements| == |returnablePrivileges| &&
      (!taskExecuted ==> |physicalRegions| == |regions| + |createdRequirements|)
    }

    /** The rest of `Valid`: children and virtual mapping. */
    ghost predicate StateValid()
      reads this`executingChildren, this`executedChildren, this`completeChildren,
            this`taskExecuted, this`childrenCompleteInvoked, this`childrenCommitInvoked, this`virtualMapped
    {
      Lifecycle.Disjoint(Children()) && |virtualMapped| == |regions|
    }

    /** An owner request is in flight only for a node with no recorded owner
        that this context does not answer for itself. */
    ghost predicate OwnersValid()
      reads this`regionTreeOwners, this`pendingVersionOwnerRequests
    {
      Caches.OwnersInv(kind, ownerOf, localSpace, Owners())
    }

    /** A manager's view is never both recorded and being made. */
    ghost predicate ViewsValid()
      reads this`instanceTopViews, this`pendingTopViews
    {
      Caches.TopViewsInv(TopViews())
    }

    /** The current trace is a known one. */
    ghost predicate TracesValid()
      reads this`currentTrace, this`traces
    {
      Extras.TracesInv(Traces())
    }

    /** A fresh context for a task with the given requirements, whose physical
        regions are mapped as `mapped` says. The window size, hysteresis and
        task minimum are the runtime's initial settings; frame throttling and
        counting by frames start off. */
    constructor(kind: Caches.Kind, localSpace: AddressSpace, ownerOf: NodeId -> AddressSpace,
                regions: seq<RegionRequirement>, indexes: seq<IndexSpaceRequirement>, mapped: seq<bool>,
                virtualMapped: seq<bool>, windowSize: nat, hysteresis: nat, tasksToSchedule: nat)
      requires |mapped| == |regions| && |virtualMapped| == |regions|
      ensures Valid() && OwnersValid() && ViewsValid() && TracesValid()
      ensures this.kind == kind && this.localSpace == localSpace && this.ownerOf == ownerOf
      ensures this.regions == regions && this.indexes == indexes && this.virtualMapped == virtualMapped
      ensures this.config == FlowControl.ContextConfig(windowSize, hysteresis, 0, tasksToSchedule, 0)
      ensures |physicalRegions| == |regions| &&
              forall i :: 0 <= i < |regions| ==> physicalRegions[i] == PhysicalRegion(regions[i], mapped[i])
      ensures RegionLedger() == Ledger.Ledger({}, {}) && FieldLedger() == Ledger.Ledger({}, {})
      ensures FieldSpaceLedger() == Ledger.Ledger({}, {}) && IndexSpaceLedger() == Ledger.Ledger({}, {})
      ensures PartitionLedger() == Ledger.Ledger({}, {})
      ensures createdRequirements == [] && returnablePrivileges == []
      ensures Children() == Lifecycle.Initial()
      ensures Window() == FlowControl.EmptyWindow() && frameEvents == []
      ensures Gate() == FlowControl.Gate(false, 0, 0, 0, 0)
      ensures Owners() == Caches.Owners(map[], map[]) && TopViews() == Caches.TopViews(map[], map[])
      ensures safeCastDomains == map[] && Traces() == Extras.Traces(None, map[])
    {
      this.kind := kind;
      this.localSpace := localSpace;
      this.ownerOf := ownerOf;
      this.regions := regions;
      this.indexes := indexes;
      createdRegions, deletedRegions := {}, {};
      createdFields, deletedFields := {}, {};
      createdFieldSpaces, deletedFieldSpaces := {}, {};
      createdIndexSpaces, deletedIndexSpaces := {}, {};
      createdIndexPartitions, deletedIndexPartitions := {}, {};
      createdRequirements, returnablePrivileges := [], [];
      physicalRegions := seq(|regions|, i requires 0 <= i < |regions| => PhysicalRegion(regions[i], mapped[i]));
      executingChildren, executedChildren, completeChildren := {}, {}, {};
      taskExecuted, childrenCompleteInvoked, childrenCommitInvoked := false, false, false;
      totalChildrenCount, totalCloseCount := 0, 0;
      config := FlowControl.ContextConfig(windowSize, hysteresis, 0, tasksToSchedule, 0);
      outstandingChildrenCount, validWaitEvent, windowWait := 0, false, 0;
      frameEvents := [];
      currentlyActive, outstandingSubtasks, pendingSubtasks, pendingFrames, contextOrderEvent := false, 0, 0, 0, 0;
      regionTreeOwners, pendingVersionOwnerRequests := map[], map[];
      instanceTopViews, pendingTopViews := map[], map[];
      safeCastDomains := map[];
      currentTrace, traces := None, map[];
      this.virtualMapped := virtualMapped;
    }

    // -------------------------------------------------------------------
    // Requirement table

    /** Appending the created requirement of a region the context made:
        read-write, exclusive, no fields yet, returnable, and an unmapped
        physical region while the task body runs. */
    method AddCreatedRegion(handle: LogicalRegion)
      requires TableValid()
      modifies this`createdRequirements, this`returnablePrivileges, this`physicalRegions
      ensures TableValid()
      ensures RequirementTable() == AddCreated(old(RequirementTable()), taskExecuted, handle)
    {
      createdRequirements := createdRequirements + [CreatedRequirement(handle)];
      returnablePrivileges := returnablePrivileges + [true];
      if !taskExecuted {
        physicalRegions := physicalRegions + [PhysicalRegion(CreatedRequirement(handle), false)];
      }
    }

    /** The requirement at index `idx` of the combined table. */
    function CloneRequirement(idx: nat): (r: RegionRequirement)
      reads this
      requires idx < |regions| + |createdRequirements|
      ensures r == Requirements.CombinedRequirement(regions, createdRequirements, idx)
      ensures idx < |regions| ==> r == regions[idx]
      ensures idx >= |regions| ==> r == createdRequirements[idx - |regions|]
    {
      if idx < |regions| then regions[idx] else createdRequirements[idx - |regions|]
    }

    /** The privilege of the requirement at index `idx` of the combined table. */
    function FindParentPrivilegeMode(idx: nat): (r: Privilege)
      reads this
      requires idx < |regions| + |createdRequirements|
      ensures r == (regions + createdRequirements)[idx].privilege
    {
      if idx < |regions| then regions[idx].privilege else createdRequirements[idx - |regions|].privilege
    }

    /** The region of the requirement at index `idx` of the combined table. */
    function FindLogicalRegion(idx: nat): (r: LogicalRegion)
      reads this
      requires idx < |regions| + |createdRequirements|
      ensures r == (regions + createdRequirements)[idx].region
    {
      if idx < |regions| then regions[idx].region else createdRequirements[idx - |regions|].region
    }

    // -------------------------------------------------------------------
    // Region ledger

    method RegisterRegionCreation(handle: LogicalRegion)
      requires Valid() && handle !in createdRegions
      modifies this`createdRegions, this`createdRequirements, this`returnablePrivileges, this`physicalRegions
      ensures Valid()
      ensures RegionLedger() == Ledger.Create(old(RegionLedger()), handle)
      ensures RequirementTable() == AddCreated(old(RequirementTable()), taskExecuted, handle)
    {
      createdRegions := createdRegions + {handle};
      AddCreatedRegion(handle);
    }

    method RegisterRegionDeletion(handle: LogicalRegion) returns (finalize: bool)
      requires Valid()
      modifies this`createdRegions, this`deletedRegions
      ensures Valid()
      ensures Ledger.Deletion(RegionLedger(), finalize) == Ledger.Delete(old(RegionLedger()), handle)
    {
      var d := Ledger.Delete(RegionLedger(), handle);
      createdRegions, deletedRegions, finalize := d.ledger.created, d.ledger.deleted, d.finalize;
    }

    /** Registering a batch of new regions, one created requirement each, in
        the order `order` the batch is walked. */
    method RegisterRegionCreations(regs: set<LogicalRegion>) returns (order: seq<LogicalRegion>)
      requires TableValid() && regs !! createdRegions
      modifies this`createdRegions, this`createdRequirements, this`returnablePrivileges, this`physicalRegions
      ensures TableValid()
      ensures RegionLedger() == Ledger.CreateAll(old(RegionLedger()), regs)
      ensures |order| == |regs| && forall h :: h in regs <==> h in order
      ensures RequirementTable() == AddCreatedAll(old(RequirementTable()), taskExecuted, order)
    {
      order := Enumerate(regs);
      createdRegions := createdRegions + regs;
      var t := RequirementTable();
      var i := 0;
      while i < |order|
        invariant 0 <= i <= |order|
        invariant t == AddCreatedAll(old(RequirementTable()), taskExecuted, order[..i])
      {
        t := AddCreated(t, taskExecuted, order[i]);
        assert order[..i + 1][..i] == order[..i];
        i := i + 1;
      }
      assert order[..i] == order;
      createdRequirements, returnablePrivileges, physicalRegions := t.created, t.returnable, t.physical;
    }

    method RegisterRegionDeletions(regs: set<LogicalRegion>) returns (toFinalize: set<LogicalRegion>)
      requires Valid()
      modifies this`createdRegions, this`deletedRegions
      ensures Valid()
      ensures createdRegions == old(createdRegions) - regs
      ensures deletedRegions == old(deletedRegions) + (regs - old(createdRegions))
      ensures toFinalize == regs * old(createdRegions)
    {
      var d := Ledger.DeleteAll(RegionLedger(), regs);
      createdRegions, deletedRegions, toFinalize := d.ledger.created, d.ledger.deleted, d.toFinalize;
    }

    // -------------------------------------------------------------------
    // Field ledger

    method RegisterFieldCreation(space: FieldSpace, fid: FieldId)
      requires Valid() && (space, fid) !in createdFields
      modifies this`createdFields
      ensures Valid()
      ensures FieldLedger() == Ledger.Create(old(FieldLedger()), (space, fid))
    {
      createdFields := createdFields + {(space, fid)};
    }

    /** Registering new fields of one space, each absent before (so also no
        field listed twice). */
    method RegisterFieldCreations(space: FieldSpace, fids: seq<FieldId>)
      requires Valid()
      requires forall i :: 0 <= i < |fids| ==> (space, fids[i]) !in createdFields
      requires forall i, j :: 0 <= i < j < |fids| ==> fids[i] != fids[j]
      modifies this`createdFields
      ensures Valid()
      ensures FieldLedger() == Ledger.CreateAll(old(FieldLedger()), Ledger.FieldPairs(space, set f | f in fids))
    {
      var i := 0;
      while i < |fids|
        invariant 0 <= i <= |fids|
        invariant createdFields == old(createdFields) + Ledger.FieldPairs(space, set f | f in fids[..i])
      {
        assert fids[..i + 1] == fids[..i] + [fids[i]];
        createdFields := createdFields + {(space, fids[i])};
        i := i + 1;
      }
      assert fids[..i] == fids;
    }

    /** Deleting fields of one space: those it created are removed and
        returned for finalisation, the others are recorded as deleted. */
    method RegisterFieldDeletions(space: FieldSpace, toFree: set<FieldId>) returns (toFinalize: set<FieldId>)
      requires Valid()
      modifies this`createdFields, this`deletedFields
      ensures Valid()
      ensures createdFields == old(createdFields) - Ledger.FieldPairs(space, toFree)
      ensures deletedFields == old(deletedFields) + (Ledger.FieldPairs(space, toFree) - old(createdFields))
      ensures forall f :: f in toFinalize <==> f in toFree && (space, f) in old(createdFields)
    {
      var d := Ledger.DeleteAll(FieldLedger(), Ledger.FieldPairs(space, toFree));
      createdFields, deletedFields := d.ledger.created, d.ledger.deleted;
      toFinalize := Ledger.FieldsOf(d.toFinalize, space);
    }

    method RegisterFieldPairCreations(fields: set<(FieldSpace, FieldId)>)
      requires Valid() && fields !! createdFields
      modifies this`createdFields
      ensures Valid()
      ensures FieldLedger() == Ledger.CreateAll(old(FieldLedger()), fields)
    {
      createdFields := createdFields + fields;
    }

    /** Deleting fields of several spaces; the pairs to finalise. */
    method RegisterFieldPairDeletions(fields: set<(FieldSpace, FieldId)>) returns (toFinalize: set<(FieldSpace, FieldId)>)
      requires Valid()
      modifies this`createdFields, this`deletedFields
      ensures Valid()
      ensures createdFields == old(createdFields) - fields
      ensures deletedFields == old(deletedFields) + (fields - old(createdFields))
      ensures toFinalize == fields * old(createdFields)
    {
      var d := Ledger.DeleteAll(FieldLedger(), fields);
      createdFields, deletedFields, toFinalize := d.ledger.created, d.ledger.deleted, d.toFinalize;
    }

    // -------------------------------------------------------------------
    // Field-space ledger

    method RegisterFieldSpaceCreation(space: FieldSpace)
      requires Valid() && space !in createdFieldSpaces
      modifies this`createdFieldSpaces
      ensures Valid()
      ensures FieldSpaceLedger() == Ledger.Create(old(FieldSpaceLedger()), space)
    {
      createdFieldSpaces := createdFieldSpaces + {space};
    }

    method RegisterFieldSpaceCreations(spaces: set<FieldSpace>)
      requires Valid() && spaces !! createdFieldSpaces
      modifies this`createdFieldSpaces
      ensures Valid()
      ensures FieldSpaceLedger() == Ledger.CreateAll(old(FieldSpaceLedger()), spaces)
    {
      createdFieldSpaces := createdFieldSpaces + spaces;
    }

    /** Deleting a field space first forgets every field the context created
        in it, then deletes the space itself. */
    method RegisterFieldSpaceDeletion(space: FieldSpace) returns (finalize: bool)
      requires Valid()
      modifies this`createdFields, this`createdFieldSpaces, this`deletedFieldSpaces
      ensures Valid()
      ensures createdFields == Ledger.DropFieldsOfSpace(old(createdFields), space)
      ensures Ledger.Deletion(FieldSpaceLedger(), finalize) == Ledger.Delete(old(FieldSpaceLedger()), space)
    {
      createdFields := Ledger.DropFieldsOfSpace(createdFields, space);
      var d := Ledger.Delete(FieldSpaceLedger(), space);
      createdFieldSpaces, deletedFieldSpaces, finalize := d.ledger.created, d.ledger.deleted, d.finalize;
    }

    method RegisterFieldSpaceDeletions(spaces: set<FieldSpace>) returns (toFinalize: set<FieldSpace>)
      requires Valid()
      modifies this`createdFields, this`createdFieldSpaces, this`deletedFieldSpaces
      ensures Valid()
      ensures forall p :: p in createdFields <==> p in old(createdFields) && p.0 !in spaces
      ensures createdFieldSpaces == old(createdFieldSpaces) - spaces
      ensures deletedFieldSpaces == old(deletedFieldSpaces) + (spaces - old(createdFieldSpaces))
      ensures toFinalize == spaces * old(createdFieldSpaces)
    {
      var todo := spaces;
      toFinalize := {};
      while todo != {}
        invariant todo <= spaces
        invariant forall p :: p in createdFields <==> p in old(createdFields) && p.0 !in spaces - todo
        invariant createdFieldSpaces == old(createdFieldSpaces) - (spaces - todo)
        invariant deletedFieldSpaces == old(deletedFieldSpaces) + ((spaces - todo) - old(createdFieldSpaces))
        invariant toFinalize == (spaces - todo) * old(createdFieldSpaces)
        decreases todo
      {
        var s :| s in todo;
        createdFields := Ledger.DropFieldsOfSpace(createdFields, s);
        var d := Ledger.Delete(FieldSpaceLedger(), s);
        createdFieldSpaces, deletedFieldSpaces := d.ledger.created, d.ledger.deleted;
        if d.finalize {
          toFinalize := toFinalize + {s};
        }
        todo := todo - {s};
      }
    }

    // -------------------------------------------------------------------
    // Index-space and index-partition ledgers

    method RegisterIndexSpaceCreation(space: IndexSpace)
      requires Valid() && space !in createdIndexSpaces
      modifies this`createdIndexSpaces
      ensures Valid()
      ensures IndexSpaceLedger() == Ledger.Create(old(IndexSpaceLedger()), space)
    {
      createdIndexSpaces := createdIndexSpaces + {space};
    }

    method RegisterIndexSpaceCreations(spaces: set<IndexSpace>)
      requires Valid() && spaces !! createdIndexSpaces
      modifies this`createdIndexSpaces
      ensures Valid()
      ensures IndexSpaceLedger() == Ledger.CreateAll(old(IndexSpaceLedger()), spaces)
    {
      createdIndexSpaces := createdIndexSpaces + spaces;
    }

    method RegisterIndexSpaceDeletion(space: IndexSpace) returns (finalize: bool)
      requires Valid()
      modifies this`createdIndexSpaces, this`deletedIndexSpaces
      ensures Valid()
      ensures Ledger.Deletion(IndexSpaceLedger(), finalize) == Ledger.Delete(old(IndexSpaceLedger()), space)
    {
      var d := Ledger.Delete(IndexSpaceLedger(), space);
      createdIndexSpaces, deletedIndexSpaces, finalize := d.ledger.created, d.ledger.deleted, d.finalize;
    }

    method RegisterIndexSpaceDeletions(spaces: set<IndexSpace>) returns (toFinalize: set<IndexSpace>)
      requires Valid()
      modifies this`createdIndexSpaces, this`deletedIndexSpaces
      ensures Valid()
      ensures createdIndexSpaces == old(createdIndexSpaces) - spaces
      ensures deletedIndexSpaces == old(deletedIndexSpaces) + (spaces - old(createdIndexSpaces))
      ensures toFinalize == spaces * old(createdIndexSpaces)
    {
      var d := Ledger.DeleteAll(IndexSpaceLedger(), spaces);
      createdIndexSpaces, deletedIndexSpaces, toFinalize := d.ledger.created, d.ledger.deleted, d.toFinalize;
    }

    method RegisterIndexPartitionCreation(handle: IndexPartitionId)
      requires Valid() && handle !in createdIndexPartitions
      modifies this`createdIndexPartitions
      ensures Valid()
      ensures PartitionLedger() == Ledger.Create(old(PartitionLedger()), handle)
    {
      createdIndexPartitions := createdIndexPartitions + {handle};
    }

    method RegisterIndexPartitionCreations(parts: set<IndexPartitionId>)
      requires Valid() && parts !! createdIndexPartitions
      modifies this`createdIndexPartitions
      ensures Valid()
      ensures PartitionLedger() == Ledger.CreateAll(old(PartitionLedger()), parts)
    {
      createdIndexPartitions := createdIndexPartitions + parts;
    }

    method RegisterIndexPartitionDeletion(handle: IndexPartitionId) returns (finalize: bool)
      requires Valid()
      modifies this`createdIndexPartitions, this`deletedIndexPartitions
      ensures Valid()
      ensures Ledger.Deletion(PartitionLedger(), finalize) == Ledger.Delete(old(PartitionLedger()), handle)
    {
      var d := Ledger.Delete(PartitionLedger(), handle);
      createdIndexPartitions, deletedIndexPartitions, finalize := d.ledger.created, d.ledger.deleted, d.finalize;
    }

    method RegisterIndexPartitionDeletions(parts: set<IndexPartitionId>) returns (toFinalize: set<IndexPartitionId>)
      requires Valid()
      modifies this`createdIndexPartitions, this`deletedIndexPartitions
      ensures Valid()
      ensures createdIndexPartitions == old(createdIndexPartitions) - parts
      ensures deletedIndexPartitions == old(deletedIndexPartitions) + (parts - old(createdIndexPartitions))
      ensures toFinalize == parts * old(createdIndexPartitions)
    {
      var d := Ledger.DeleteAll(PartitionLedger(), parts);
      createdIndexPartitions, deletedIndexPartitions, toFinalize := d.ledger.created, d.ledger.deleted, d.toFinalize;
    }

    // -------------------------------------------------------------------
    // Privilege checks

    /** The index-space privilege check: the first requirement of the task
        naming the parent decides; otherwise a created parent space admits
        any privilege. */
    method CheckIndexPrivilege(req: IndexSpaceRequirement, forest: Forest) returns (err: LegionError)
      ensures err == Requirements.CheckIndexPrivilege(indexes, createdIndexSpaces, req, forest)
    {
      if req.verified {
        return NoError;
      }
      var i := 0;
      while i < |indexes|
        invariant 0 <= i <= |indexes|
        invariant Requirements.FirstIndexParent(indexes, req.parent, 0) == Requirements.FirstIndexParent(indexes, req.parent, i)
      {
        if indexes[i].handle == req.parent {
          if (req.parent, req.handle) !in forest.indexPaths {
            return BadIndexPath;
          }
          if Exceeds(req.privilege, indexes[i].privilege) {
            return BadIndexPrivileges;
          }
          return NoError;
        }
        i := i + 1;
      }
      if req.parent in createdIndexSpaces {
        if (req.parent, req.handle) !in forest.indexPaths {
          return BadIndexPath;
        }
        return NoError;
      }
      return BadParentIndex;
    }

    /** One binding's part of the region privilege check: the working set
        loses the fields `our` grants. On a path or privilege error the
        working set is left part-way (the caller discards it). */
    method CheckPrivilegeInternal(req: RegionRequirement, our: RegionRequirement, remaining: set<FieldId>,
                                  skip: bool, forest: Forest) returns (err: LegionError, left: set<FieldId>)
      ensures err == Requirements.PrivilegeInternal(req, our, remaining, skip, forest).0
      ensures err == NoError || err == BadParentRegion ==>
                left == Requirements.PrivilegeInternal(req, our, remaining, skip, forest).1
    {
      left := remaining;
      if our.region == req.parent {
        if !Requirements.PathExists(req, forest) {
          return Requirements.PathError(req), left;
        }
        var todo := remaining;
        while todo != {}
          invariant todo <= remaining
          invariant left == remaining - (remaining - todo) * our.fields
          invariant (remaining - todo) * our.fields != {} ==> Requirements.PrivilegeAdmits(req, our, skip)
          decreases todo
        {
          var f :| f in todo;
          if f in our.fields {
            if !skip && Exceeds(req.privilege, our.privilege) && our.privilege != WRITE_DISCARD {
              assert f in remaining * our.fields;
              return Requirements.PrivilegeError(req), left;
            }
            left := left - {f};
          }
          todo := todo - {f};
        }
      }
      err := if left != {} then BadParentRegion else NoError;
    }

    /** The region privilege check over the task's requirements, then the
        created ones, then the fields the context created. */
    method CheckRegionPrivilege(req: RegionRequirement, skip: bool, forest: Forest) returns (err: LegionError)
      requires Valid()
      ensures err == Requirements.CheckRegionPrivilege(regions, createdRequirements, returnablePrivileges,
                                                       createdFields, req, skip, forest)
    {
      if req.verified {
        return NoError;
      }
      ghost var bs := regions + createdRequirements;
      ghost var flags := Requirements.NotReturnable(|regions|) + returnablePrivileges;
      ghost var whole := Requirements.ScanBindings(req, bs, flags, req.fields, skip, forest);
      var fields := req.fields;
      var i := 0;
      while i < |regions|
        invariant 0 <= i <= |regions|
        invariant whole == Requirements.ScanBindings(req, bs[i..], flags[i..], fields, skip, forest)
      {
        assert bs[i..][0] == regions[i] && bs[i..][1..] == bs[i + 1..];
        assert !flags[i..][0] && flags[i..][1..] == flags[i + 1..];
        var et, left := CheckPrivilegeInternal(req, regions[i], fields, skip, forest);
        if et == NoError {
          return NoError;
        }
        if et != BadParentRegion {
          return et;
        }
        fields := left;
        i := i + 1;
      }
      assert bs[|regions|..] == createdRequirements && flags[|regions|..] == returnablePrivileges;
      var scan := ScanCreated(req, fields, skip, forest);
      if scan.Done? {
        return scan.err;
      }
      var all := AllFieldsCreated(req);
      err := if all then NoError else BadParentRegion;
    }

    /** The second loop of the region privilege check: the created
        requirements, in order, with the fields still to be granted. */
    method ScanCreated(req: RegionRequirement, fields: set<FieldId>, skip: bool, forest: Forest)
      returns (scan: Requirements.Scan)
      requires |createdRequirements| == |returnablePrivileges|
      ensures scan == Requirements.ScanBindings(req, createdRequirements, returnablePrivileges, fields, skip, forest)
    {
      ghost var whole := Requirements.ScanBindings(req, createdRequirements, returnablePrivileges, fields, skip, forest);
      var remaining := fields;
      var j := 0;
      while j < |createdRequirements|
        invariant 0 <= j <= |createdRequirements|
        invariant whole == Requirements.ScanBindings(req, createdRequirements[j..], returnablePrivileges[j..],
                                                     remaining, skip, forest)
      {
        assert createdRequirements[j..][0] == createdRequirements[j];
        assert createdRequirements[j..][1..] == createdRequirements[j + 1..];
        assert returnablePrivileges[j..][0] == returnablePrivileges[j];
        assert returnablePrivileges[j..][1..] == returnablePrivileges[j + 1..];
        var et, left := CheckPrivilegeInternal(req, createdRequirements[j], remaining, skip, forest);
        if et == NoError {
          return Requirements.Done(NoError);
        }
        if et != BadParentRegion {
          return Requirements.Done(et);
        }
        if returnablePrivileges[j] {
          return Requirements.Done(NoError);
        }
        remaining := left;
        j := j + 1;
      }
      assert createdRequirements[j..] == [] && returnablePrivileges[j..] == [];
      return Requirements.Continue(remaining);
    }

    /** Whether the context created every requested field. */
    method AllFieldsCreated(req: RegionRequirement) returns (all: bool)
      ensures all == Requirements.AllFieldsCreated(req, createdFields)
    {
      var space := req.region.fieldSpace;
      var todo := req.fields;
      while todo != {}
        invariant todo <= req.fields
        invariant forall f :: f in req.fields - todo ==> (space, f) in createdFields
        decreases todo
      {
        var f :| f in todo;
        if (space, f) !in createdFields {
          assert f in req.fields;
          return false;
        }
        todo := todo - {f};
      }
      return true;
    }

    /** The first of the task's own requirements that dominates `req`. */
    method FindOriginalParent(req: RegionRequirement, checkPrivilege: bool) returns (found: Option<nat>)
      ensures found == Requirements.FirstDominating(regions, req, checkPrivilege, 0)
    {
      var i := 0;
      while i < |regions|
        invariant 0 <= i <= |regions|
        invariant Requirements.FirstDominating(regions, req, checkPrivilege, 0) ==
                  Requirements.FirstDominating(regions, req, checkPrivilege, i)
      {
        var our := regions[i];
        if our.region == req.parent && (!checkPrivilege || Within(req.privilege, our.privilege)) &&
           req.fields <= our.fields {
          return Some(i);
        }
        i := i + 1;
      }
      return None;
    }

    /** The walk over the created requirements, widening the field sets of
        the candidates it tries with fields the context created. */
    method FindCreatedParent(req: RegionRequirement, checkPrivilege: bool, createdFs: set<FieldId>)
      returns (found: Option<nat>)
      requires |createdRequirements| == |returnablePrivileges|
      modifies this`createdRequirements
      ensures (createdRequirements, found) ==
              Requirements.ScanCreatedParent(old(createdRequirements), returnablePrivileges, createdFs,
                                             req, checkPrivilege, 0)
    {
      ghost var scan := Requirements.ScanCreatedParent(createdRequirements, returnablePrivileges, createdFs,
                                                       req, checkPrivilege, 0);
      var j := 0;
      while j < |createdRequirements|
        invariant 0 <= j <= |createdRequirements| == |returnablePrivileges|
        invariant scan == Requirements.ScanCreatedParent(createdRequirements, returnablePrivileges, createdFs,
                                                         req, checkPrivilege, j)
      {
        var our := createdRequirements[j];
        if our.region == req.parent && (!checkPrivilege || Within(req.privilege, our.privilege)) {
          if returnablePrivileges[j] {
            createdRequirements := createdRequirements[j := our.(fields := our.fields + req.fields)];
            return Some(j);
          }
          var w := Requirements.WidenFields(our.fields, req.fields, createdFs);
          createdRequirements := createdRequirements[j := our.(fields := w.0)];
          if w.1 {
            return Some(j);
          }
        }
        j := j + 1;
      }
      return None;
    }

    /** The parent requirement search: the task's requirements first, then
        the created ones, and as last resort a new created requirement on the
        tree's root when the context created every requested field. */
    method FindParentRegionReq(req: RegionRequirement, checkPrivilege: bool, forest: Forest) returns (index: int)
      requires TableValid()
      modifies this`createdRequirements, this`returnablePrivileges, this`physicalRegions
      ensures TableValid()
      ensures var r := Requirements.FindParentRegionReq(regions, old(createdRequirements), old(returnablePrivileges),
                                                        old(physicalRegions), createdFields, taskExecuted,
                                                        req, checkPrivilege, forest);
              index == r.index && RequirementTable() == Table(r.created, r.returnable, r.physical)
    {
      var original := FindOriginalParent(req, checkPrivilege);
      if original.Some? {
        return original.value;
      }
      var createdFs := Ledger.FieldsOf(createdFields, req.parent.fieldSpace);
      var created := FindCreatedParent(req, checkPrivilege, createdFs);
      if created.Some? {
        return |regions| + created.value;
      }
      if !(req.fields <= createdFs) {
        return -1;
      }
      index := AppendSynthesizedParent(req, forest);
    }

    /** The last resort of the parent search: a new non-returnable created
        requirement on the tree's root, with the requested fields, and an
        unmapped physical region for it while the task body runs. */
    method AppendSynthesizedParent(req: RegionRequirement, forest: Forest) returns (index: int)
      requires TableValid()
      modifies this`createdRequirements, this`returnablePrivileges, this`physicalRegions
      ensures TableValid()
      ensures var newReq := CreatedRequirement(forest.treeRoot(req.parent.treeId)).(fields := req.fields);
              createdRequirements == old(createdRequirements) + [newReq] &&
              returnablePrivileges == old(returnablePrivileges) + [false] &&
              physicalRegions == (if taskExecuted then old(physicalRegions)
                                  else old(physicalRegions) + [PhysicalRegion(newReq, false)])
      ensures index == |regions| + |old(createdRequirements)|
    {
      var newReq := CreatedRequirement(forest.treeRoot(req.parent.treeId)).(fields := req.fields);
      createdRequirements := createdRequirements + [newReq];
      returnablePrivileges := returnablePrivileges + [false];
      if !taskExecuted {
        physicalRegions := physicalRegions + [PhysicalRegion(newReq, false)];
      }
      index := |regions| + |createdRequirements| - 1;
    }

    // -------------------------------------------------------------------
    // Children

    /** Entering the dependence queue: an operation that tracks its parent
        becomes an executing child. */
    method AddToDependenceQueue(op: OpId, trackingParent: bool)
      requires Valid()
      requires trackingParent ==> !Lifecycle.Tracked(Children(), op)
      modifies this`executingChildren
      ensures Valid()
      ensures trackingParent ==> Children() == Lifecycle.AddChild(old(Children()), op)
      ensures !trackingParent ==> executingChildren == old(executingChildren)
    {
      if trackingParent {
        executingChildren := executingChildren + {op};
      }
    }

    /** Registering a new child operation: it gets the next child index, is
        marked as part of the current trace (and whether that trace is still
        being recorded), and enters the window, where it may have to wait. */
    method RegisterNewChildOperation(newEvent: EventId)
      returns (index: nat, trace: Option<(TraceId, bool)>, waitOn: Option<EventId>)
      requires Valid() && TracesValid()
      requires FlowControl.WindowActive(config) && outstandingChildrenCount + 1 >= config.maxWindowSize ==>
                 !validWaitEvent
      modifies this`totalChildrenCount, this`outstandingChildrenCount, this`validWaitEvent, this`windowWait
      ensures Valid()
      ensures index == old(totalChildrenCount) && totalChildrenCount == index + 1
      ensures currentTrace.None? ==> trace.None?
      ensures currentTrace.Some? ==> trace == Some((currentTrace.value, !traces[currentTrace.value]))
      ensures var reg := FlowControl.RegisterChild(config, old(Window()), newEvent);
              Window() == reg.window && waitOn == reg.waitOn
    {
      trace := None;
      if currentTrace.Some? {
        trace := Some((currentTrace.value, !traces[currentTrace.value]));
      }
      index := totalChildrenCount;
      totalChildrenCount := totalChildrenCount + 1;
      outstandingChildrenCount := outstandingChildrenCount + 1;
      waitOn := None;
      if config.minFramesToSchedule == 0 && config.maxWindowSize > 0 &&
         outstandingChildrenCount >= config.maxWindowSize {
        windowWait := newEvent;
        validWaitEvent := true;
        waitOn := Some(newEvent);
      }
    }

    /** Registering a close operation: it gets the next close index. */
    method RegisterNewCloseOperation() returns (index: nat)
      modifies this`totalCloseCount
      ensures index == old(totalCloseCount) && totalCloseCount == index + 1
    {
      index := totalCloseCount;
      totalCloseCount := totalCloseCount + 1;
    }

    /** A child finished executing: it moves to the executed set and leaves
        the window, which may release a blocked registrant. */
    method RegisterChildExecuted(op: OpId) returns (toTrigger: Option<EventId>)
      requires Valid()
      requires op in executingChildren && op !in executedChildren && op !in completeChildren
      requires outstandingChildrenCount > 0
      modifies this`executingChildren, this`executedChildren, this`outstandingChildrenCount, this`validWaitEvent
      ensures Valid()
      ensures Children() == Lifecycle.ChildExecuted(old(Children()), op)
      ensures var rel := FlowControl.ChildLeaves(config, old(Window()));
              Window() == rel.window && toTrigger == rel.toTrigger
    {
      executingChildren := executingChildren - {op};
      executedChildren := executedChildren + {op};
      outstandingChildrenCount := outstandingChildrenCount - 1;
      toTrigger := None;
      if validWaitEvent && config.maxWindowSize > 0 &&
         outstandingChildrenCount <= FlowControl.LowWater(config) {
        toTrigger := Some(windowWait);
        validWaitEvent := false;
      }
    }

    /** A child completed: it moves to the complete set; reports children
        complete when that is now due. */
    method RegisterChildComplete(op: OpId) returns (triggerComplete: bool)
      requires Valid()
      requires op in executedChildren && op !in completeChildren && op !in executingChildren
      modifies this`executedChildren, this`completeChildren, this`childrenCompleteInvoked
      ensures Valid()
      ensures var st := Lifecycle.ChildComplete(old(Children()), op);
              Children() == st.next && triggerComplete == st.triggerComplete
    {
      executedChildren := executedChildren - {op};
      completeChildren := completeChildren + {op};
      triggerComplete := false;
      if taskExecuted && executingChildren == {} && executedChildren == {} && !childrenCompleteInvoked {
        triggerComplete := true;
        childrenCompleteInvoked := true;
      }
    }

    /** A child committed: it leaves the complete set; reports children
        committed when that is now due (with the task body done, see the
        findings). */
    method RegisterChildCommit(op: OpId) returns (triggerCommit: bool)
      requires Valid()
      requires op in completeChildren && op !in executingChildren && op !in executedChildren
      modifies this`completeChildren, this`childrenCommitInvoked
      ensures Valid()
      ensures var st := Lifecycle.ChildCommit(old(Children()), op);
              Children() == st.next && triggerCommit == st.triggerCommit
    {
      completeChildren := completeChildren - {op};
      triggerCommit := false;
      if taskExecuted && executingChildren == {} && executedChildren == {} && completeChildren == {} &&
         !childrenCommitInvoked {
        triggerCommit := true;
        childrenCommitInvoked := true;
      }
    }

    /** Unregistering a child: it leaves every set and the window. */
    method UnregisterChildOperation(op: OpId) returns (toTrigger: Option<EventId>)
      requires Valid()
      requires outstandingChildrenCount > 0
      modifies this`executingChildren, this`executedChildren, this`completeChildren
      modifies this`outstandingChildrenCount, this`validWaitEvent
      ensures Valid()
      ensures Children() == Lifecycle.Unregister(old(Children()), op)
      ensures var rel := FlowControl.ChildLeaves(config, old(Window()));
              Window() == rel.window && toTrigger == rel.toTrigger
    {
      executingChildren := executingChildren - {op};
      executedChildren := executedChildren - {op};
      completeChildren := completeChildren - {op};
      outstandingChildrenCount := outstandingChildrenCount - 1;
      toTrigger := None;
      if validWaitEvent && config.maxWindowSize > 0 &&
         outstandingChildrenCount <= FlowControl.LowWater(config) {
        toTrigger := Some(windowWait);
        validWaitEvent := false;
      }
    }

    method AttemptChildrenComplete() returns (r: bool)
      requires Valid()
      modifies this`childrenCompleteInvoked
      ensures Valid()
      ensures var st := Lifecycle.AttemptComplete(old(Children()));
              Children() == st.next && r == st.triggerComplete
    {
      r := false;
      if taskExecuted && executingChildren == {} && executedChildren == {} && !childrenCompleteInvoked {
        childrenCompleteInvoked := true;
        r := true;
      }
    }

    method AttemptChildrenCommit() returns (r: bool)
      requires Valid()
      modifies this`childrenCommitInvoked
      ensures Valid()
      ensures var st := Lifecycle.AttemptCommit(old(Children()));
              Children() == st.next && r == st.triggerCommit
    {
      r := false;
      if taskExecuted && executingChildren == {} && executedChildren == {} && completeChildren == {} &&
         !childrenCommitInvoked {
        childrenCommitInvoked := true;
        r := true;
      }
    }

    /** The end of the task body: marks the task executed, says which reports
        are now due, and unmaps every mapped physical region, returning those
        it unmapped in table order. */
    method PostEndTask() returns (needComplete: bool, needCommit: bool, unmapped: seq<PhysicalRegion>)
      requires Valid() && !taskExecuted
      modifies this`taskExecuted, this`childrenCompleteInvoked, this`childrenCommitInvoked, this`physicalRegions
      ensures Valid()
      ensures var st := Lifecycle.EndTask(old(Children()));
              Children() == st.next && needComplete == st.triggerComplete && needCommit == st.triggerCommit
      ensures |old(physicalRegions)| == |regions| + |createdRequirements|
      ensures unmapped == MappedRegions(old(physicalRegions))
      ensures physicalRegions == AllUnmapped(old(physicalRegions))
    {
      taskExecuted := true;
      needComplete, needCommit := false, false;
      if executingChildren == {} && executedChildren == {} {
        if !childrenCompleteInvoked {
          needComplete := true;
          childrenCompleteInvoked := true;
        }
        if completeChildren == {} && !childrenCommitInvoked {
          needCommit := true;
          childrenCommitInvoked := true;
        }
      }
      unmapped := UnmapPhysicalRegions();
    }

    /** Unmapping every mapped physical region; those unmapped are returned
        in table order. */
    method UnmapPhysicalRegions() returns (unmapped: seq<PhysicalRegion>)
      modifies this`physicalRegions
      ensures unmapped == MappedRegions(old(physicalRegions))
      ensures physicalRegions == AllUnmapped(old(physicalRegions))
    {
      ghost var ps := physicalRegions;
      unmapped := [];
      var i := 0;
      while i < |physicalRegions|
        invariant 0 <= i <= |physicalRegions| == |ps|
        invariant forall k :: 0 <= k < i ==> physicalRegions[k] == ps[k].(mapped := false)
        invariant forall k :: i <= k < |ps| ==> physicalRegions[k] == ps[k]
        invariant unmapped == MappedRegions(ps[..i])
      {
        assert ps[..i + 1][..i] == ps[..i];
        if physicalRegions[i].mapped {
          unmapped := unmapped + [physicalRegions[i]];
        }
        physicalRegions := physicalRegions[i := physicalRegions[i].(mapped := false)];
        i := i + 1;
      }
      assert ps[..i] == ps;
    }

    // -------------------------------------------------------------------
    // Frames

    /** Issuing a frame (only called with frames throttled): its marker
        joins the queue; it chains after the previous frame, and waits for
        the frame `maxOutstandingFrames` places back when the queue is over
        the limit. */
    method PerformFrameIssue(marker: EventId) returns (waitOn: Option<EventId>, previous: Option<EventId>)
      requires Valid() && config.maxOutstandingFrames > 0
      modifies this`frameEvents
      ensures Valid()
      ensures var fi := FlowControl.IssueFrame(config.maxOutstandingFrames, old(frameEvents), marker);
              frameEvents == fi.queue && waitOn == fi.waitOn && previous == fi.previous
    {
      var n := |frameEvents|;
      previous, waitOn := None, None;
      if n > 0 {
        previous := Some(frameEvents[n - 1]);
      }
      if n > config.maxOutstandingFrames {
        waitOn := Some(frameEvents[n - config.maxOutstandingFrames]);
      }
      frameEvents := frameEvents + [marker];
    }

    /** Issuing a frame from the application: nothing happens unless frames
        are throttled. */
    method IssueFrame(marker: EventId) returns (waitOn: Option<EventId>, previous: Option<EventId>)
      requires Valid()
      modifies this`frameEvents
      ensures Valid()
      ensures config.maxOutstandingFrames == 0 ==>
                frameEvents == old(frameEvents) && waitOn.None? && previous.None?
      ensures config.maxOutstandingFrames > 0 ==>
                var fi := FlowControl.IssueFrame(config.maxOutstandingFrames, old(frameEvents), marker);
                frameEvents == fi.queue && waitOn == fi.waitOn && previous == fi.previous
    {
      waitOn, previous := None, None;
      if config.maxOutstandingFrames > 0 {
        waitOn, previous := PerformFrameIssue(marker);
      }
    }

    /** A frame finished: with frames throttled, its marker, which is the
        oldest in the queue, leaves it. */
    method FinishFrame(marker: EventId)
      requires Valid()
      requires config.maxOutstandingFrames > 0 ==> frameEvents != [] && frameEvents[0] == marker
      modifies this`frameEvents
      ensures Valid()
      ensures FlowControl.FinishFrame(config.maxOutstandingFrames, old(frameEvents), marker) ==
              FlowControl.Finished(frameEvents)
    {
      if config.maxOutstandingFrames > 0 {
        frameEvents := frameEvents[1..];
      }
    }

    // -------------------------------------------------------------------
    // Activation gate

    method IncrementOutstanding(newEvent: EventId) returns (transition: Option<FlowControl.Transition>)
      requires Valid() && FlowControl.OneDiscipline(config)
      modifies this`currentlyActive, this`outstandingSubtasks, this`contextOrderEvent
      ensures Valid()
      ensures var st := FlowControl.IncrementOutstanding(config, old(Gate()), newEvent);
              Gate() == st.gate && transition == st.transition
      ensures FlowControl.GateInv(config, old(Gate())) ==> FlowControl.GateInv(config, Gate())
    {
      ghost var g := Gate();
      transition := None;
      if !currentlyActive && outstandingSubtasks == 0 && FlowControl.Starved(config, Gate()) {
        transition := Some(FlowControl.Transition(contextOrderEvent, newEvent, true));
        contextOrderEvent := newEvent;
        currentlyActive := true;
      }
      outstandingSubtasks := outstandingSubtasks + 1;
      if FlowControl.GateInv(config, g) {
        FlowControl.GateStepFacts(config, g, FlowControl.IncOutstanding(newEvent));
      }
    }

    method DecrementOutstanding(newEvent: EventId) returns (transition: Option<FlowControl.Transition>)
      requires Valid() && FlowControl.OneDiscipline(config) && outstandingSubtasks > 0
      modifies this`currentlyActive, this`outstandingSubtasks, this`contextOrderEvent
      ensures Valid()
      ensures var st := FlowControl.DecrementOutstanding(config, old(Gate()), newEvent);
              Gate() == st.gate && transition == st.transition
      ensures FlowControl.GateInv(config, old(Gate())) ==> FlowControl.GateInv(config, Gate())
    {
      ghost var g := Gate();
      outstandingSubtasks := outstandingSubtasks - 1;
      transition := None;
      if currentlyActive && outstandingSubtasks == 0 && FlowControl.Starved(config, Gate()) {
        transition := Some(FlowControl.Transition(contextOrderEvent, newEvent, false));
        contextOrderEvent := newEvent;
        currentlyActive := false;
      }
      if FlowControl.GateInv(config, g) {
        FlowControl.GateStepFacts(config, g, FlowControl.DecOutstanding(newEvent));
      }
    }

    method IncrementPending(newEvent: EventId) returns (transition: Option<FlowControl.Transition>)
      requires Valid() && FlowControl.OneDiscipline(config)
      modifies this`currentlyActive, this`pendingSubtasks, this`contextOrderEvent
      ensures Valid()
      ensures var st := FlowControl.IncrementPending(config, old(Gate()), newEvent);
              Gate() == st.gate && transition == st.transition
      ensures FlowControl.GateInv(config, old(Gate())) ==> FlowControl.GateInv(config, Gate())
    {
      ghost var g := Gate();
      transition := None;
      if config.minTasksToSchedule > 0 {
        pendingSubtasks := pendingSubtasks + 1;
        if currentlyActive && outstandingSubtasks > 0 && pendingSubtasks == config.minTasksToSchedule {
          transition := Some(FlowControl.Transition(contextOrderEvent, newEvent, false));
          contextOrderEvent := newEvent;
          currentlyActive := false;
        }
      }
      if FlowControl.GateInv(config, g) {
        FlowControl.GateStepFacts(config, g, FlowControl.IncPending(newEvent));
      }
    }

    method DecrementPending(newEvent: EventId) returns (transition: Option<FlowControl.Transition>)
      requires Valid() && FlowControl.OneDiscipline(config)
      requires config.minTasksToSchedule > 0 ==> pendingSubtasks > 0
      modifies this`currentlyActive, this`pendingSubtasks, this`contextOrderEvent
      ensures Valid()
      ensures var st := FlowControl.DecrementPending(config, old(Gate()), newEvent);
              Gate() == st.gate && transition == st.transition
      ensures FlowControl.GateInv(config, old(Gate())) ==> FlowControl.GateInv(config, Gate())
    {
      ghost var g := Gate();
      transition := None;
      if config.minTasksToSchedule > 0 {
        pendingSubtasks := pendingSubtasks - 1;
        if !currentlyActive && outstandingSubtasks > 0 && pendingSubtasks < config.minTasksToSchedule {
          transition := Some(FlowControl.Transition(contextOrderEvent, newEvent, true));
          contextOrderEvent := newEvent;
          currentlyActive := true;
        }
      }
      if FlowControl.GateInv(config, g) {
        FlowControl.GateStepFacts(config, g, FlowControl.DecPending(newEvent));
      }
    }

    method IncrementFrame(newEvent: EventId) returns (transition: Option<FlowControl.Transition>)
      requires Valid() && FlowControl.OneDiscipline(config)
      modifies this`currentlyActive, this`pendingFrames, this`contextOrderEvent
      ensures Valid()
      ensures var st := FlowControl.IncrementFrame(config, old(Gate()), newEvent);
              Gate() == st.gate && transition == st.transition
      ensures FlowControl.GateInv(config, old(Gate())) ==> FlowControl.GateInv(config, Gate())
    {
      ghost var g := Gate();
      transition := None;
      if config.minFramesToSchedule > 0 {
        pendingFrames := pendingFrames + 1;
        if currentlyActive && outstandingSubtasks > 0 && pendingFrames == config.minFramesToSchedule {
          transition := Some(FlowControl.Transition(contextOrderEvent, newEvent, false));
          contextOrderEvent := newEvent;
          currentlyActive := false;
        }
      }
      if FlowControl.GateInv(config, g) {
        FlowControl.GateStepFacts(config, g, FlowControl.IncFrame(newEvent));
      }
    }

    method DecrementFrame(newEvent: EventId) returns (transition: Option<FlowControl.Transition>)
      requires Valid() && FlowControl.OneDiscipline(config)
      requires config.minFramesToSchedule > 0 ==> pendingFrames > 0
      modifies this`currentlyActive, this`pendingFrames, this`contextOrderEvent
      ensures Valid()
      ensures var st := FlowControl.DecrementFrame(config, old(Gate()), newEvent);
              Gate() == st.gate && transition == st.transition
      ensures FlowControl.GateInv(config, old(Gate())) ==> FlowControl.GateInv(config, Gate())
    {
      ghost var g := Gate();
      transition := None;
      if config.minFramesToSchedule > 0 {
        pendingFrames := pendingFrames - 1;
        if !currentlyActive && outstandingSubtasks > 0 && pendingFrames < config.minFramesToSchedule {
          transition := Some(FlowControl.Transition(contextOrderEvent, newEvent, true));
          contextOrderEvent := newEvent;
          currentlyActive := true;
        }
      }
      if FlowControl.GateInv(config, g) {
        FlowControl.GateStepFacts(config, g, FlowControl.DecFrame(newEvent));
      }
    }

    /** Taking the mapper's configuration: refused when it selects neither
        discipline (the configuration is then left as it was); counting by
        frames, when selected, switches counting by tasks off. */
    method ConfigureContext(mapperOutput: FlowControl.ContextConfig) returns (err: Option<LegionError>)
      requires Valid()
      modifies this`config
      ensures Valid()
      ensures var r := FlowControl.Configure(mapperOutput);
              (r.ConfigError? ==> err == Some(r.err) && config == old(config)) &&
              (r.Configured? ==> err.None? && config == r.config)
    {
      if mapperOutput.minTasksToSchedule == 0 && mapperOutput.minFramesToSchedule == 0 {
        return Some(InvalidContextConfiguration);
      }
      config := mapperOutput;
      if mapperOutput.minFramesToSchedule > 0 {
        config := config.(minTasksToSchedule := 0);
      }
      err := None;
    }

    // -------------------------------------------------------------------
    // Caches

    /** Looking up the owner of a region-tree node, asked by `source`. */
    method GetVersionOwner(node: NodeId, source: AddressSpace, newEvent: EventId) returns (lookup: Caches.OwnerLookup)
      requires OwnersValid()
      modifies this`regionTreeOwners, this`pendingVersionOwnerRequests
      ensures OwnersValid()
      ensures var rep := Caches.GetVersionOwner(kind, old(Owners()), node, source, localSpace, ownerOf(node), newEvent);
              Owners() == rep.owners && lookup == rep.lookup
    {
      ghost var o := Owners();
      var rep := Caches.GetVersionOwner(kind, Owners(), node, source, localSpace, ownerOf(node), newEvent);
      regionTreeOwners, pendingVersionOwnerRequests, lookup := rep.owners.records, rep.owners.pending, rep.lookup;
      Caches.OwnerStepFacts(kind, ownerOf, localSpace, o, Caches.Lookup(node, source, newEvent));
    }

    /** The owner's answer for a node whose request is in flight. */
    method ProcessVersionOwnerResponse(node: NodeId, result: AddressSpace) returns (toTrigger: EventId)
      requires OwnersValid() && node !in regionTreeOwners && node in pendingVersionOwnerRequests
      modifies this`regionTreeOwners, this`pendingVersionOwnerRequests
      ensures OwnersValid()
      ensures var r := Caches.VersionOwnerResponse(old(Owners()), node, result);
              Owners() == r.0 && toTrigger == r.1
    {
      ghost var o := Owners();
      toTrigger := pendingVersionOwnerRequests[node];
      regionTreeOwners := regionTreeOwners[node := Caches.OwnerRecord(result, false)];
      pendingVersionOwnerRequests := pendingVersionOwnerRequests - {node};
      Caches.OwnerStepFacts(kind, ownerOf, localSpace, o, Caches.Response(node, result));
    }

    /** Asking for the top view of an instance's manager. */
    method CreateInstanceTopView(m: ManagerId, isOwner: bool, ownerSpace: AddressSpace, newEvent: EventId)
      returns (lookup: Caches.ViewLookup)
      requires ViewsValid()
      modifies this`pendingTopViews
      ensures ViewsValid()
      ensures var rep := Caches.RequestTopView(old(TopViews()), m, isOwner, ownerSpace, newEvent);
              TopViews() == rep.topViews && lookup == rep.lookup
    {
      ghost var t := TopViews();
      if !isOwner {
        return Caches.Forward(ownerSpace);
      }
      if m in instanceTopViews {
        return Caches.Cached(instanceTopViews[m]);
      }
      if m !in pendingTopViews {
        pendingTopViews := pendingTopViews[m := None];
        lookup := Caches.MakeView;
      } else if pendingTopViews[m].None? {
        pendingTopViews := pendingTopViews[m := Some(newEvent)];
        lookup := Caches.WaitView(newEvent);
      } else {
        lookup := Caches.WaitView(pendingTopViews[m].value);
      }
      Caches.ViewStepFacts(t, Caches.Request(m, isOwner, ownerSpace, newEvent));
    }

    /** The maker of a top view records it. */
    method RecordTopView(m: ManagerId, v: ViewId) returns (toTrigger: Option<EventId>)
      requires ViewsValid() && m !in instanceTopViews && m in pendingTopViews
      modifies this`instanceTopViews, this`pendingTopViews
      ensures ViewsValid()
      ensures var r := Caches.RecordTopView(old(TopViews()), m, v);
              TopViews() == r.0 && toTrigger == r.1
    {
      ghost var t := TopViews();
      instanceTopViews := instanceTopViews[m := v];
      toTrigger := pendingTopViews[m];
      pendingTopViews := pendingTopViews - {m};
      Caches.ViewStepFacts(t, Caches.Record(m, v));
    }

    /** An instance was deleted: its top view leaves the cache. */
    method NotifyInstanceDeletion(m: ManagerId) returns (removed: ViewId)
      requires ViewsValid() && m in instanceTopViews
      modifies this`instanceTopViews
      ensures ViewsValid()
      ensures TopViews() == Caches.NotifyInstanceDeletion(old(TopViews()), m)
      ensures removed == old(instanceTopViews)[m]
    {
      ghost var t := TopViews();
      removed := instanceTopViews[m];
      instanceTopViews := instanceTopViews - {m};
      Caches.ViewStepFacts(t, Caches.Deletion(m));
    }

    /** Checking that a point lies in an index space, with the space's domain
        cached after the first lookup. */
    method PerformSafeCast(handle: IndexSpace, point: int, domainOf: IndexSpace -> Extras.Domain)
      returns (result: Option<int>)
      modifies this`safeCastDomains
      ensures var c := Extras.SafeCast(old(safeCastDomains), domainOf, handle, point);
              safeCastDomains == c.cache && result == c.result
    {
      if handle !in safeCastDomains {
        safeCastDomains := safeCastDomains[handle := domainOf(handle)];
      }
      result := if point in safeCastDomains[handle].points then Some(point) else None;
    }

    // -------------------------------------------------------------------
    // Traces

    method BeginTrace(tid: TraceId) returns (err: Option<LegionError>, mappingFence: bool)
      requires TracesValid()
      modifies this`currentTrace, this`traces
      ensures TracesValid()
      ensures var r := Extras.BeginTrace(old(Traces()), tid);
              (r.TraceError? ==> err == Some(r.err) && Traces() == old(Traces())) &&
              (r.Began? ==> err.None? && Traces() == r.traces && mappingFence == r.mappingFence)
    {
      mappingFence := false;
      if currentTrace.Some? {
        return Some(IllegalNestedTrace), false;
      }
      if tid !in traces {
        traces := traces[tid := false];
      } else {
        mappingFence := true;
      }
      currentTrace := Some(tid);
      err := None;
    }

    method EndTrace(tid: TraceId) returns (err: Option<LegionError>, op: Option<Extras.TraceOp>)
      requires TracesValid()
      modifies this`currentTrace, this`traces
      ensures TracesValid()
      ensures var r := Extras.EndTrace(old(Traces()), tid);
              (r.TraceError? ==> err == Some(r.err) && op.None? && Traces() == old(Traces())) &&
              (r.Ended? ==> err.None? && Traces() == r.traces && op == Some(r.op))
    {
      if currentTrace.None? {
        return Some(UnmatchedEndTrace), None;
      }
      var cur := currentTrace.value;
      if traces[cur] {
        op := Some(Extras.CompleteOp);
      } else {
        op := Some(Extras.CaptureOp);
        traces := traces[cur := true];
      }
      currentTrace := None;
      err := None;
    }

    // -------------------------------------------------------------------
    // Virtual mapping

    /** The indexes of the virtually mapped requirements, ascending, as they
        are packed for a remote copy of the context. */
    method PackVirtualIndexes() returns (r: seq<nat>)
      ensures r == Extras.VirtualIndexes(virtualMapped)
    {
      r := [];
      var i := 0;
      while i < |virtualMapped|
        invariant 0 <= i <= |virtualMapped|
        invariant r + Extras.VirtualIndexesFrom(virtualMapped, i) == Extras.VirtualIndexes(virtualMapped)
      {
        Extras.PackStep(virtualMapped, i);
        if virtualMapped[i] {
          assert (r + [i]) + Extras.VirtualIndexesFrom(virtualMapped, i + 1) ==
                 r + ([i] + Extras.VirtualIndexesFrom(virtualMapped, i + 1));
          r := r + [i];
        }
        i := i + 1;
      }
      assert Extras.VirtualIndexesFrom(virtualMapped, i) == [];
      assert r + [] == r;
    }

    /** A remote copy marks the requirements at the unpacked indexes as
        virtually mapped and no others. */
    method UnpackVirtualMapped(indexes: seq<nat>)
      requires Valid()
      requires forall k :: 0 <= k < |indexes| ==> indexes[k] < |regions|
      modifies this`virtualMapped
      ensures Valid()
      ensures virtualMapped == Extras.VirtualMapped(|regions|, indexes)
    {
      virtualMapped := seq(|regions|, _ => false);
      var k := 0;
      while k < |indexes|
        invariant 0 <= k <= |indexes|
        invariant |virtualMapped| == |regions|
        invariant forall i :: 0 <= i < |regions| ==> (virtualMapped[i] <==> i in indexes[..k])
      {
        virtualMapped := virtualMapped[indexes[k] := true];
        assert indexes[..k + 1] == indexes[..k] + [indexes[k]];
        k := k + 1;
      }
      assert indexes[..k] == indexes;
    }
  }
}
