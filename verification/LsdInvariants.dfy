/**
 What every call, faultless or not, keeps; and what holds over every run of the two servers.
 */
module LsdInvariants {
  import opened Options
  import opened LsdProtocol

  // ----- how far a plan can be carried out -----

  predicate HasEvent(plan: Plan) { plan.LogCrash? || plan.LogWrite? || plan.LogPatchWrite? || plan.PatchLogWrite? }

  predicate HasRow(plan: Plan) { plan.Write? || plan.LogWrite? || plan.LogPatchWrite? || plan.PatchLogWrite? }

  /** Whatever fails, the row is written only after the event of the plan is in the log. */
  lemma RowFollowsLog(cfg: Config, c: Cell, plan: Plan, env: Env)
    ensures
      var q := Perform(cfg, c, plan, env).cell;
      && (q.log == c.log || (HasEvent(plan) && q.log == c.log + [plan.event]))
      && (q.row == c.row || (HasRow(plan) && q.row == Some(Stored(plan.row)) && (HasEvent(plan) ==> q.log == c.log + [plan.event])))
  {
  }

  /** Without faults every effect of the plan is carried out. */
  lemma FaultlessPlan(cfg: Config, c: Cell, plan: Plan, env: Env)
    requires Faultless(env) && cfg.lcpUrlSet && c.license.Some? && !plan.LogCrash?
    ensures
      var q := Perform(cfg, c, plan, env).cell;
      && q.log == (if HasEvent(plan) then c.log + [plan.event] else c.log)
      && q.row == (if HasRow(plan) then Some(Stored(plan.row)) else c.row)
      && q.license.Some?
      && q.license.value.end == (if plan.LogPatchWrite? || plan.PatchLogWrite? then NonZero(Some(plan.end)) else c.license.value.end)
  {
  }

  /** The license server is touched by a PATCH of the end the plan gives, or not at all. */
  lemma LicenseFollowsPatch(cfg: Config, c: Cell, plan: Plan, env: Env)
    ensures
      var q := Perform(cfg, c, plan, env).cell;
      || q.license == c.license
      || (&& (plan.LogPatchWrite? || plan.PatchLogWrite?) && cfg.lcpUrlSet && c.license.Some?
          && q.license == Merge(c.license.value, EndOnly(plan.end), if plan.LogPatchWrite? then env.third else env.second))
  {
  }

  // ----- status histories -----

  /** One move of the stored status. */
  predicate Move(a: Status, b: Status) {
    || a == b
    || (a.Ready? && (b.Active? || b.Cancelled? || b.Expired?))
    || (a.Active? && (b.Returned? || b.Revoked? || b.Expired?))
    || (a.Expired? && (b.Returned? || b.Active?))
  }

  /** Whatever call arrives, whatever fails: the stored status makes one move of the diagram at most,
      and a terminal row is left exactly as it was. */
  lemma StatusMoves(cfg: Config, c: Cell, op: Op, env: Env)
    requires c.row.Some?
    ensures
      var n := Next(cfg, c, op, env);
      && n.row.Some?
      && n.row.value.id == c.row.value.id
      && Move(c.row.value.status, n.row.value.status)
      && (Terminal(c.row.value.status) ==> n.row == c.row)
  {
  }

  /** The log only grows, and by one event of this row at most. */
  lemma LogGrows(cfg: Config, c: Cell, op: Op, env: Env)
    requires c.row.Some?
    ensures
      var n := Next(cfg, c, op, env);
      n.log == c.log || exists e: Event :: e.rowId == c.row.value.id && n.log == c.log + [e]
  {
    if OnStatusServer(op) {
      var plan := PlanOf(cfg, c, op, env);
      if plan.LogWrite? || plan.LogPatchWrite? || plan.PatchLogWrite? || plan.LogCrash? {
        assert plan.event.rowId == c.row.value.id;
      }
    }
  }

  // ----- a terminal row has its event -----

  predicate Matches(s: Status, k: EventKind) {
    || (s.Returned? && k.Return?)
    || (s.Revoked? && k.Revoke?)
    || (s.Cancelled? && (k.Cancel? || k.Return?))
  }

  ghost predicate Justified(c: Cell) {
    c.row.Some? && Terminal(c.row.value.status) ==>
      exists i :: 0 <= i < |c.log| && Matches(c.row.value.status, c.log[i].kind)
  }

  lemma TerminalIsJustified(cfg: Config, c: Cell, op: Op, env: Env)
    requires c.row.Some? && Justified(c)
    ensures Justified(Next(cfg, c, op, env))
  {
    var n := Next(cfg, c, op, env);
    LogGrows(cfg, c, op, env);
    if Terminal(c.row.value.status) {
      StatusMoves(cfg, c, op, env);
      var i :| 0 <= i < |c.log| && Matches(c.row.value.status, c.log[i].kind);
      assert n.log[i] == c.log[i];
    } else if Terminal(n.row.value.status) {
      assert Matches(n.row.value.status, n.log[|c.log|].kind);
    }
  }

  // ----- freshness across the two servers -----

  /** The date the license server stands for: issue, last update or certificate date. */
  function Freshest(cfg: Config, l: License): (r: Time) {
    var d := if l.updated.Some? then Max(l.issued, l.updated.value) else l.issued;
    if cfg.cert.At? then Max(d, cfg.cert.date) else d
  }

  predicate Fresh(cfg: Config, clock: Time, c: Cell) {
    && c.row.Some? && c.license.Some?
    && SECOND <= c.license.value.issued <= Trunc(clock)
    && (c.license.value.updated.Some? ==> c.license.value.updated.value <= Trunc(clock))
    && c.row.value.licenseUpdated <= Freshest(cfg, c.license.value)
  }

  lemma TruncMonotone(a: Time, b: Time)
    requires a <= b
    ensures Trunc(a) <= Trunc(b) <= b
  {
  }

  lemma PatchedFresh(cfg: Config, clock: Time, p: Progress, end: Time, now: Time, env: Env)
    requires Fresh(cfg, clock, p.cell) && clock <= now
    ensures
      var q := PatchStep(cfg, p, end, now, env);
      && Fresh(cfg, now, q.cell)
      && q.cell.row == p.cell.row
      && (q.error.None? ==> p.error.None? && Trunc(now) <= Freshest(cfg, q.cell.license.value))
  {
    TruncMonotone(clock, now);
  }

  lemma StoredFresh(cfg: Config, clock: Time, p: Progress, r: Row, o: Outcome)
    requires Fresh(cfg, clock, p.cell) && (p.error.None? ==> r.licenseUpdated <= Freshest(cfg, p.cell.license.value))
    ensures Fresh(cfg, clock, StoreStep(p, r, o).cell)
  {
  }

  lemma LaterFresh(cfg: Config, clock: Time, later: Time, c: Cell)
    requires Fresh(cfg, clock, c) && clock <= later
    ensures Fresh(cfg, later, c)
  {
    TruncMonotone(clock, later);
  }

  lemma PerformedFresh(cfg: Config, clock: Time, c: Cell, plan: Plan, env: Env)
    requires Fresh(cfg, clock, c) && clock <= env.first && Ordered(env)
    requires plan.Write? || plan.LogWrite? ==> plan.row.licenseUpdated <= Freshest(cfg, c.license.value)
    requires plan.LogPatchWrite? ==> plan.row.licenseUpdated == Trunc(env.second)
    requires plan.PatchLogWrite? ==> plan.row.licenseUpdated == Trunc(env.first)
    ensures Fresh(cfg, env.third, Perform(cfg, c, plan, env).cell)
  {
    LaterFresh(cfg, clock, env.third, c);
    var p := Progress(c, None);
    match plan
    case Reject(_) =>
    case Keep(_) =>
    case LogCrash(_) =>
    case Write(r) => StoredFresh(cfg, env.third, p, r, env.store);
    case LogWrite(e, r) => StoredFresh(cfg, env.third, LogStep(p, e, env.log), r, env.store);
    case LogPatchWrite(e, end, r) =>
      var logged := LogStep(p, e, env.log);
      PatchedFresh(cfg, clock, logged, end, env.third, env);
      TruncMonotone(env.second, env.third);
      StoredFresh(cfg, env.third, PatchStep(cfg, logged, end, env.third, env), r, env.store);
    case PatchLogWrite(end, e, r) =>
      var patched := PatchStep(cfg, p, end, env.second, env);
      PatchedFresh(cfg, clock, p, end, env.second, env);
      TruncMonotone(env.first, env.second);
      LaterFresh(cfg, env.second, env.third, patched.cell);
      StoredFresh(cfg, env.third, LogStep(patched, e, env.log), r, env.store);
  }

  lemma StaysFresh(cfg: Config, clock: Time, c: Cell, op: Op, env: Env)
    requires Fresh(cfg, clock, c) && clock <= env.first && Ordered(env)
    ensures Fresh(cfg, env.third, Next(cfg, c, op, env))
  {
    if OnStatusServer(op) {
      PerformedFresh(cfg, clock, c, PlanOf(cfg, c, op, env), env);
    } else {
      TruncMonotone(clock, env.first);
      TruncMonotone(env.first, env.third);
    }
  }

  /** No call on either server makes the license any older. */
  lemma FreshestGrows(cfg: Config, clock: Time, c: Cell, op: Op, env: Env)
    requires Fresh(cfg, clock, c) && clock <= env.first && Ordered(env)
    ensures Next(cfg, c, op, env).license.Some?
    ensures Freshest(cfg, c.license.value) <= Freshest(cfg, Next(cfg, c, op, env).license.value)
  {
    TruncMonotone(clock, env.first);
    TruncMonotone(clock, env.second);
    TruncMonotone(clock, env.third);
    if OnStatusServer(op) {
      LicenseFollowsPatch(cfg, c, PlanOf(cfg, c, op, env), env);
    }
  }

  /** Whatever handler answers a document, faults or not: the license is by then at least as recent as it announces. */
  lemma DocumentsAreFresh(cfg: Config, clock: Time, c: Cell, op: Op, env: Env)
    requires Fresh(cfg, clock, c) && clock <= env.first && Ordered(env) && OnStatusServer(op)
    ensures
      var reply, n := ReplyTo(cfg, c, op, env), Next(cfg, c, op, env);
      reply.Document? ==> n.license.Some? && reply.row.licenseUpdated <= Freshest(cfg, n.license.value)
  {
    FreshestGrows(cfg, clock, c, op, env);
    TruncMonotone(env.second, env.third);
  }

  /** What a client gets after a status document is dated like the license, certificate date included. */
  lemma ServedIsFreshest(cfg: Config, l: License)
    ensures Served(cfg, l).Some? ==>
              var s := Served(cfg, l).value;
              Freshest(cfg, l) <= if s.updated.Some? then Max(s.issued, s.updated.value) else s.issued
  {
  }

  /** A client that follows a status document to the license never gets one older than announced. */
  lemma ClientNeverBehind(cfg: Config, clock: Time, c: Cell)
    requires Fresh(cfg, clock, c) && Served(cfg, c.license.value).Some?
    ensures
      var s := Served(cfg, c.license.value).value;
      Fetched(cfg, c.row.value).licenseUpdated <= if s.updated.Some? then Max(s.issued, s.updated.value) else s.issued
  {
  }

  // ----- ends of a loan, on the status server -----

  /** While the license is not terminal, its end lies between the end it was born with and the maximum it was born with. */
  predicate EndsInRange(l: License, maximum: Option<Time>, c: Cell) {
    && c.row.Some?
    && (maximum.Some? ==> maximum.value != 0 && l.end.Some? && l.end.value <= maximum.value)
    && (!Terminal(c.row.value.status) ==>
          && c.row.value.potentialEnd == maximum
          && (maximum.Some? ==> c.row.value.end.Some? && l.end.value <= c.row.value.end.value <= maximum.value)
          && (maximum.None? ==> c.row.value.end == l.end))
  }

  lemma EndsStayInRange(cfg: Config, l: License, maximum: Option<Time>, c: Cell, op: Op, env: Env)
    requires EndsInRange(l, maximum, c)
    ensures EndsInRange(l, maximum, Next(cfg, c, op, env))
  {
  }

  // ----- devices -----

  /** The devices of the register events, in the order of the log: the answer of `ListRegisteredDevices`. */
  function Registered(log: seq<Event>): (ds: seq<string>)
    ensures |ds| <= |log|
  {
    if log == [] then []
    else
      var init := Registered(log[..|log| - 1]);
      if log[|log| - 1].kind.Register? then init + [log[|log| - 1].device] else init
  }

  lemma RegisteredAppend(log: seq<Event>, e: Event)
    ensures Registered(log + [e]) == if e.kind.Register? then Registered(log) + [e.device] else Registered(log)
  {
    assert (log + [e])[..|log|] == log;
  }

  lemma {:induction false} RegisteredAreKnown(log: seq<Event>, d: string)
    requires d in Registered(log)
    ensures KnownDevice(log, d)
  {
    var last := log[|log| - 1];
    if !(last.kind.Register? && last.device == d) {
      RegisteredAreKnown(log[..|log| - 1], d);
      var i :| 0 <= i < |log| - 1 && log[..|log| - 1][i].device == d;
      assert log[i].device == d;
    } else {
      assert log[|log| - 1].device == d;
    }
  }

  predicate Distinct(ds: seq<string>) { forall i, j :: 0 <= i < j < |ds| ==> ds[i] != ds[j] }

  predicate DevicesCounted(c: Cell) {
    && c.row.Some?
    && c.row.value.deviceCount.Some?
    && 0 <= c.row.value.deviceCount.value <= |Registered(c.log)|
    && Distinct(Registered(c.log))
  }

  lemma LoggedDevices(cfg: Config, c: Cell, e: Event)
    requires DevicesCounted(c) && (e.kind.Register? ==> !KnownDevice(c.log, e.device))
    ensures Registered(c.log + [e]) == if e.kind.Register? then Registered(c.log) + [e.device] else Registered(c.log)
    ensures Distinct(Registered(c.log + [e]))
  {
    RegisteredAppend(c.log, e);
    if e.kind.Register? && e.device in Registered(c.log) {
      RegisteredAreKnown(c.log, e.device);
    }
  }

  /** The plan registers unknown devices only, and counts them. */
  predicate CountsDevices(c: Cell, plan: Plan)
    requires DevicesCounted(c)
  {
    && !plan.LogCrash?
    && (plan.LogWrite? ==> plan.event.kind.Register? && !KnownDevice(c.log, plan.event.device))
    && (plan.LogPatchWrite? || plan.PatchLogWrite? ==> !plan.event.kind.Register?)
    && (HasRow(plan) ==>
          plan.row.deviceCount == Some(c.row.value.deviceCount.value + if plan.LogWrite? then 1 else 0))
  }

  lemma PlannedDevices(cfg: Config, c: Cell, op: Op, env: Env)
    requires DevicesCounted(c) && OnStatusServer(op)
    ensures CountsDevices(c, PlanOf(cfg, c, op, env))
  {
  }

  lemma DevicesStayCounted(cfg: Config, c: Cell, op: Op, env: Env)
    requires DevicesCounted(c)
    ensures DevicesCounted(Next(cfg, c, op, env))
    ensures OnStatusServer(op) ==> !PlanOf(cfg, c, op, env).LogCrash?
  {
    if OnStatusServer(op) {
      PlannedDevices(cfg, c, op, env);
      PerformedDevices(cfg, c, PlanOf(cfg, c, op, env), env);
    }
  }

  lemma PerformedDevices(cfg: Config, c: Cell, plan: Plan, env: Env)
    requires DevicesCounted(c) && CountsDevices(c, plan)
    ensures DevicesCounted(Perform(cfg, c, plan, env).cell)
  {
    RowFollowsLog(cfg, c, plan, env);
    if HasEvent(plan) {
      LoggedDevices(cfg, c, plan.event);
    }
  }

  // ----- the end kept by the license server -----

  /** The end the license server enforces is bounded by the original maximum or by the present. */
  predicate LcpBounded(maximum: Time, clock: Time, c: Cell) {
    c.license.Some? && c.license.value.end.Some? && c.license.value.end.value <= Max(maximum, clock)
  }

  predicate FromStatusServer(op: Op) { !op.CmsPatch? }

  lemma PlannedBounded(cfg: Config, l: License, maximum: Time, c: Cell, op: Op, env: Env)
    requires EndsInRange(l, Some(maximum), c) && OnStatusServer(op)
    requires l.end.value >= 0 || maximum < 0
    requires SECOND <= env.first && Ordered(env)
    ensures
      var plan := PlanOf(cfg, c, op, env);
      plan.LogPatchWrite? || plan.PatchLogWrite? ==> plan.end != 0 && plan.end <= Max(maximum, env.third)
  {
    TruncMonotone(env.first, env.second);
    TruncMonotone(SECOND, env.first);
  }

  lemma LcpStaysBounded(cfg: Config, l: License, maximum: Time, clock: Time, c: Cell, op: Op, env: Env)
    requires EndsInRange(l, Some(maximum), c) && LcpBounded(maximum, clock, c)
    requires l.end.value >= 0 || maximum < 0 || !cfg.lcpUrlSet
    requires SECOND <= clock <= env.first && Ordered(env) && FromStatusServer(op)
    ensures LcpBounded(maximum, env.third, Next(cfg, c, op, env))
  {
    if OnStatusServer(op) {
      LicenseFollowsPatch(cfg, c, PlanOf(cfg, c, op, env), env);
      if cfg.lcpUrlSet {
        PlannedBounded(cfg, l, maximum, c, op, env);
      }
    }
  }

  /** What the status server changes on the license server: the end and the date of update, nothing else. */
  lemma OnlyTheEndIsPatched(cfg: Config, c: Cell, op: Op, env: Env)
    requires c.license.Some? && FromStatusServer(op)
    ensures
      var n := Next(cfg, c, op, env).license;
      n.Some? && n.value == c.license.value.(updated := n.value.updated, end := n.value.end)
  {
    if OnStatusServer(op) {
      LicenseFollowsPatch(cfg, c, PlanOf(cfg, c, op, env), env);
    }
  }

  // ----- what faultless calls keep -----

  predicate EndsAgree(c: Cell) { c.row.Some? && c.license.Some? && c.license.value.end == c.row.value.end }

  predicate CountIsExact(c: Cell) { c.row.Some? && c.row.value.deviceCount == Some(|Registered(c.log)|) }

  predicate ReadyIsUnused(c: Cell) { c.row.Some? && (c.row.value.status.Ready? ==> c.log == []) }

  /** Any faultless call at all, direct patches included, whatever the ends and whether the servers are connected or not. */
  lemma CountStaysExact(cfg: Config, c: Cell, op: Op, env: Env)
    requires CountIsExact(c) && DevicesCounted(c) && Faultless(env)
    ensures CountIsExact(Next(cfg, c, op, env))
  {
    if OnStatusServer(op) {
      PlannedDevices(cfg, c, op, env);
      PerformedCount(cfg, c, PlanOf(cfg, c, op, env), env);
    }
  }

  lemma PerformedCount(cfg: Config, c: Cell, plan: Plan, env: Env)
    requires CountIsExact(c) && DevicesCounted(c) && CountsDevices(c, plan) && Faultless(env)
    ensures CountIsExact(Perform(cfg, c, plan, env).cell)
  {
    RowFollowsLog(cfg, c, plan, env);
    if HasEvent(plan) {
      LoggedDevices(cfg, c, plan.event);
    }
  }

  /** No plan writes a ready row behind an event, or makes a row ready that was not. */
  lemma PlannedReady(cfg: Config, c: Cell, op: Op, env: Env)
    requires OnStatusServer(op) && c.row.Some?
    ensures
      var plan := PlanOf(cfg, c, op, env);
      && (plan.LogPatchWrite? || plan.PatchLogWrite? || plan.LogWrite? || plan.Write? ==> !plan.row.status.Ready?)
  {
  }

  lemma ReadyStaysUnused(cfg: Config, c: Cell, op: Op, env: Env)
    requires ReadyIsUnused(c) && DevicesCounted(c) && c.license.Some? && cfg.lcpUrlSet && Faultless(env)
    ensures ReadyIsUnused(Next(cfg, c, op, env)) && Next(cfg, c, op, env).license.Some?
  {
    if OnStatusServer(op) {
      PlannedReady(cfg, c, op, env);
      PlannedDevices(cfg, c, op, env);
      FaultlessPlan(cfg, c, PlanOf(cfg, c, op, env), env);
    }
  }

  /** The plan gives both servers the same end. */
  predicate KeepsEnds(c: Cell, plan: Plan)
    requires c.row.Some?
  {
    && !plan.LogCrash?
    && (plan.LogPatchWrite? || plan.PatchLogWrite? ==> plan.end != 0 && plan.row.end == Some(plan.end))
    && (plan.LogWrite? || plan.Write? ==> plan.row.end == c.row.value.end)
  }

  lemma PlannedEnds(cfg: Config, l: License, maximum: Option<Time>, c: Cell, op: Op, env: Env)
    requires EndsInRange(l, maximum, c) && DevicesCounted(c) && OnStatusServer(op)
    requires maximum.Some? ==> l.end.value >= 0 || maximum.value < 0
    requires SECOND <= env.first && Ordered(env)
    ensures KeepsEnds(c, PlanOf(cfg, c, op, env))
  {
    TruncMonotone(SECOND, env.first);
    TruncMonotone(env.first, env.second);
  }

  /** Without a connection no end changes, on either server. */
  lemma DisconnectedKeepsEnds(cfg: Config, c: Cell, op: Op, env: Env)
    requires OnStatusServer(op) && !cfg.lcpUrlSet && c.row.Some?
    ensures
      var n := Next(cfg, c, op, env);
      n.license == c.license && n.row.Some? && n.row.value.end == c.row.value.end
  {
  }

  /** Excluded: an end before year 1 extended to the zero time, which the license server reads as "no end". */
  lemma EndsStayAgreed(cfg: Config, l: License, maximum: Option<Time>, clock: Time, c: Cell, op: Op, env: Env)
    requires EndsAgree(c) && EndsInRange(l, maximum, c) && DevicesCounted(c)
    requires maximum.Some? && cfg.lcpUrlSet ==> l.end.value >= 0 || maximum.value < 0
    requires SECOND <= clock <= env.first && Ordered(env) && Faultless(env) && FromStatusServer(op)
    ensures EndsAgree(Next(cfg, c, op, env))
  {
    if OnStatusServer(op) && !cfg.lcpUrlSet {
      DisconnectedKeepsEnds(cfg, c, op, env);
    } else if OnStatusServer(op) {
      PlannedEnds(cfg, l, maximum, c, op, env);
      FaultlessPlan(cfg, c, PlanOf(cfg, c, op, env), env);
    }
  }
}
