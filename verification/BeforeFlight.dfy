/** drp_execute_before_flight: the command that resets status variables and storage before a flight. */
module BeforeFlight {
  import opened Bytes
  import opened PlanRecord
  import opened FlashLayout
  import opened StatusRepo
  import opened Storage
  import opened Downlink

  /** SCH_DRP_MAGIC */
  const MAGIC := 1010

  const CMD_ERROR := -1

  /** dat_fpl_queue, dat_mem_temp and dat_mem_ack_temp */
  const FPL_QUEUE := 22
  const MEM_INDEX := 37
  const MEM_ACK := 45

  /** What the command's parameter string holds. */
  datatype Argument = Null | Unreadable | Number(magic: int32)

  /** The counters of storage and downlink are status variables. */
  ghost predicate Mirrors(repo: Repo, node: Node)
    requires repo.Valid()
    reads repo.buff, node, node.store
  {
    && |node.memAck| == PAYLOADS == |node.store.memIndex|
    && repo.Var(FPL_QUEUE) == node.store.fplQueue
    && forall p: nat :: p < PAYLOADS ==>
        repo.Var(MEM_INDEX + p) == node.store.memIndex[p] && repo.Var(MEM_ACK + p) == node.memAck[p]
  }

  /** All logs, counts and counters of a node are empty or zero. */
  ghost predicate Reset(node: Node)
    reads node, node.store, node.store.flash.mem
  {
    && node.store.ValidLogs() && node.store.logs == seq(PAYLOADS, _ => [])
    && node.memAck == seq(PAYLOADS, _ => 0) && node.store.fplQueue == 0 && node.store.plan == []
  }

  /** Zeroing the counters and then deleting the memory sections, on a node in any state: counters unset, flash
      full of anything. With flight plans enabled the storage invariant holds afterwards. Without, the plan section is
      not erased, so that it holds if and only if that section was blank; for a plan that was kept properly, if and only
      if it was empty. */
  method ResetNode(node: Node, fpEnabled: bool)
    requires FitsChip(node.store.Image()) && node.store.Wired()
    modifies node, node.store, node.store.flash.mem
    ensures Reset(node)
    ensures fpEnabled ==> node.store.Valid() && node.Valid()
    ensures !fpEnabled ==> (node.store.Valid() <==> HoldsPlan(old(node.store.Image()), []))
    ensures !fpEnabled && old(node.store.ValidPlan()) ==> (node.store.Valid() <==> old(node.store.plan) == [])
    ensures !fpEnabled && old(node.store.ValidPlan()) ==>
      (IsErased(node.store.Image(), RecordAddress(0), RECORD) <==> old(node.store.plan) == [])
  {
    var store := node.store;
    ghost var img, plan, held := store.Image(), store.plan, store.ValidPlan();
    store.fplQueue, store.memIndex, node.memAck := 0, seq(PAYLOADS, _ => 0), seq(PAYLOADS, _ => 0);
    store.plan := [];
    ResetStaysInside(0, store.flash.mem.Length);
    var _ := store.DeleteMemorySections(fpEnabled);
    if !fpEnabled && held {
      StalePlan(img, plan);
      SamePlanSection(img, store.Image(), Records(plan));
      UsedRecordNotErased(store.Image(), plan);
    }
  }

  /** A section that holds entries does not hold the empty plan. */
  lemma {:induction false} StalePlan(img: seq<byte>, plan: seq<Entry>)
    requires HoldsPlan(img, plan)
    ensures HoldsPlan(img, []) <==> plan == []
  {
    UsedRecordNotErased(img, plan);
  }

  /** drp_execute_before_flight, on a node in any state. */
  method ExecuteBeforeFlight(repo: Repo, node: Node, arg: Argument, now: int32, fpEnabled: bool) returns (rc: int)
    requires repo.Valid() && FitsChip(node.store.Image()) && node.store.Wired()
    modifies repo.buff, node, node.store, node.store.flash.mem
    ensures rc == match arg
      case Null => CMD_ERROR
      case Unreadable => CMD_FAIL
      case Number(magic) => if magic == MAGIC then CMD_OK else CMD_FAIL
    ensures rc != CMD_OK ==> unchanged(repo.buff) && unchanged(node) && unchanged(node.store) && unchanged(node.store.flash.mem)
    ensures rc == CMD_OK ==>
      && Mirrors(repo, node) && Reset(node)
      && (forall i: nat :: i < VARS ==> repo.Var(i) == if i == RTC_DATE_TIME then now else 0)
      && (node.store.Valid() <==> fpEnabled || HoldsPlan(old(node.store.Image()), []))
  {
    if arg.Null? {
      return CMD_ERROR;
    }
    if arg.Unreadable? || arg.magic != MAGIC {
      return CMD_FAIL;
    }
    repo.ZeroAll(now);
    ResetNode(node, fpEnabled);
    rc := CMD_OK;
  }

  /** From any state of a node, the command in a build with flight plans and then any run of storage requests ends and
      answers as the list model started from nothing. */
  method ResetAndRun(node: Node, ops: seq<Op>) returns (outs: seq<Out>)
    requires FitsChip(node.store.Image()) && node.store.Wired() && AllSized(ops)
    modifies node, node.store, node.store.flash.mem
    ensures var empty := Model([], seq(PAYLOADS, _ => []));
      && node.store.Valid() && Model(node.store.plan, node.store.logs) == ModelRun(empty, ops)
      && outs == Outputs(empty, ops)
  {
    ResetNode(node, true);
    outs := node.store.Run(ops);
  }
}
