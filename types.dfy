/** Handles, requirements, privileges and error codes shared by every part of
    the task-context model. Handles are opaque identifiers; runtime services the
    context only queries (the region-tree forest, event creation) are passed in
    as values by the callers of the operations that use them. */
module LegionTypes {

  datatype Option<T> = None | Some(value: T)

  type FieldId = nat
  type FieldSpace = nat
  type IndexSpace = nat
  type IndexPartitionId = nat
  type TreeId = nat
  type OpId = nat
  type EventId = nat
  type AddressSpace = nat
  type NodeId = nat
  type ManagerId = nat
  type ViewId = nat
  type TraceId = nat

  /** A logical region names an index space and a field space inside one region tree. */
  datatype LogicalRegion = LogicalRegion(indexSpace: IndexSpace, fieldSpace: FieldSpace, treeId: TreeId)

  /** A logical partition names an index partition inside one region tree. */
  datatype LogicalPartition = LogicalPartition(indexPartition: IndexPartitionId, fieldSpace: FieldSpace, treeId: TreeId)

  /** Whether a requirement names a region, a region with a projection, or a partition. */
  datatype HandleType = Singular | RegProjection | PartProjection

  /** Privilege modes are bit masks (read, write-discard and reduce bits). */
  type Privilege = bv32

  const NO_ACCESS: Privilege := 0
  const READ_ONLY: Privilege := 1
  const WRITE_DISCARD: Privilege := 2
  const REDUCE: Privilege := 4
  const READ_WRITE: Privilege := 7

  datatype Coherence = Exclusive | Atomic | Simultaneous | Relaxed

  /** A region requirement: the data a task or operation asks for and the
      parent region whose privileges it draws on. `verified` stands for the
      VERIFIED_FLAG bit of the requirement's flags. */
  datatype RegionRequirement = RegionRequirement(
    region: LogicalRegion,
    partition: LogicalPartition,
    parent: LogicalRegion,
    handleType: HandleType,
    privilege: Privilege,
    coherence: Coherence,
    redop: nat,
    fields: set<FieldId>,
    verified: bool)

  /** The requirement a context makes for a region it created or synthesises:
      read-write, exclusive, on the region itself, initially without fields. */
  function CreatedRequirement(handle: LogicalRegion): (r: RegionRequirement)
    ensures r.region == handle && r.parent == handle && r.handleType == Singular
    ensures r.privilege == READ_WRITE && r.coherence == Exclusive && r.fields == {}
  {
    RegionRequirement(handle, LogicalPartition(0, handle.fieldSpace, handle.treeId), handle,
                      Singular, READ_WRITE, Exclusive, 0, {}, false)
  }

  /** A physical region of a context: the requirement it stands for and
      whether an instance is currently mapped for it. */
  datatype PhysicalRegion = PhysicalRegion(req: RegionRequirement, mapped: bool)

  /** Index-space requirement of a task. */
  datatype IndexSpaceRequirement = IndexSpaceRequirement(
    handle: IndexSpace, parent: IndexSpace, privilege: Privilege, verified: bool)

  /** The error codes the privilege checks can produce. */
  datatype LegionError =
    | NoError
    | BadParentRegion
    | BadRegionPath
    | BadPartitionPath
    | BadRegionPrivileges
    | BadPartitionPrivileges
    | BadIndexPath
    | BadIndexPrivileges
    | BadParentIndex
    | IllegalNestedTrace
    | UnmatchedEndTrace
    | InvalidContextConfiguration

  /** True when `req` asks for a bit that `ours` does not grant. */
  predicate Exceeds(req: Privilege, ours: Privilege)
  {
    req & !ours != 0
  }

  /** True when every bit of `req` is granted by `ours`. */
  predicate Within(req: Privilege, ours: Privilege)
  {
    req & ours == req
  }

  lemma WithinIsNotExceeds(req: Privilege, ours: Privilege)
    ensures Within(req, ours) <==> !Exceeds(req, ours)
  {
  }

  /** Dependence kinds the dependence analysis can report. */
  datatype DependenceType =
    | NoDependence
    | TrueDependence
    | AntiDependence
    | AtomicDependence
    | SimultaneousDependence

  /** How an operation uses a region: privilege, coherence and reduction operator. */
  datatype RegionUsage = RegionUsage(privilege: Privilege, coherence: Coherence, redop: nat)

  function UsageOf(req: RegionRequirement): RegionUsage
  {
    RegionUsage(req.privilege, req.coherence, req.redop)
  }

  /** The queries the context puts to the region-tree forest, as relations:
      `indexPaths` holds (ancestor, descendant) index spaces with a path between
      them, `partitionPaths` (ancestor space, partition) pairs, `treeRoot` the
      root region of each tree, and `dependence` the dependence type between
      two usages. */
  datatype Forest = Forest(
    indexPaths: set<(IndexSpace, IndexSpace)>,
    partitionPaths: set<(IndexSpace, IndexPartitionId)>,
    treeRoot: TreeId -> LogicalRegion,
    dependence: (RegionUsage, RegionUsage) -> DependenceType)
}
