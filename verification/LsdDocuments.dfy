/**
 The status documents: what GET serves, and whether the links it offers are honoured.
 */
module LsdDocuments {
  import opened Options
  import opened LsdProtocol
  import opened LsdInvariants

  /** A license served as ready or active is not past its end at the clock of the request. */
  lemma ServedIsCurrent(cfg: Config, c: Cell, env: Env)
    ensures
      var reply := ReplyTo(cfg, c, GetStatus, env);
      reply.Document? && Usable(reply.row.status) && reply.row.end.Some? ==> Trunc(env.first) <= reply.row.end.value
  {
  }

  /** At a fixed clock a second GET changes nothing, whatever became of the first; and answers the same when both succeed. */
  lemma GetIsIdempotent(cfg: Config, c: Cell, env: Env)
    requires env.first == env.second
    ensures
      var n := Next(cfg, c, GetStatus, env);
      && Next(cfg, n, GetStatus, env) == n
      && (Faultless(env) ==> ReplyTo(cfg, n, GetStatus, env) == ReplyTo(cfg, c, GetStatus, env))
  {
    if env.readOk && c.row.Some? {
      var r := Fetched(cfg, c.row.value);
      assert Fetched(cfg, Stored(r)) == r;
    }
  }

  /** The handler takes the request on, faults apart. */
  predicate Accepts(cfg: Config, c: Cell, op: Op, env: Env)
    requires OnStatusServer(op)
  {
    var plan := PlanOf(cfg, c, op, env);
    !plan.Reject? && !plan.LogCrash?
  }

  predicate GoodName(s: string) { 0 < |s| <= 255 }

  predicate GoodEnd(cfg: Config, e: EndParam) { e.Explicit? || (e.Absent? && cfg.renewDays != 0) }

  predicate Offers(reply: Reply, cfg: Config, rel: Rel) { reply.Document? && rel in Links(cfg, reply.row) }

  /** A register or return link is offered only when the next well-formed request through it is accepted, at any
      later clock, as long as nothing else happens to the license. */
  lemma RegisterAndReturnLinksAreHonoured(cfg: Config, c: Cell, env: Env, device: string, name: string, later: Env)
    requires DevicesCounted(c) && !cfg.goofyMode && later.readOk && later.queryOk && GoodName(device) && GoodName(name)
    ensures
      var reply := ReplyTo(cfg, c, GetStatus, env);
      var n := Next(cfg, c, GetStatus, env);
      && (Offers(reply, cfg, RegisterRel) ==> Accepts(cfg, n, RegisterDevice(device, name), later))
      && (Offers(reply, cfg, ReturnRel) ==> Accepts(cfg, n, ReturnLoan(device, name), later))
  {
  }

  /** The default renew link is honoured exactly when the license is not ready and has a maximum end. */
  lemma RenewLinkIsHonoured(cfg: Config, c: Cell, env: Env, device: string, name: string, end: EndParam, later: Env)
    requires cfg.renewUrl.Default? && later.readOk && GoodName(device) && GoodName(name) && GoodEnd(cfg, end)
    ensures
      var reply := ReplyTo(cfg, c, GetStatus, env);
      var n := Next(cfg, c, GetStatus, env);
      Offers(reply, cfg, RenewRel) ==>
        (Accepts(cfg, n, RenewLoan(device, name, end), later) <==> !reply.row.status.Ready? && reply.row.potentialEnd.Some?)
  {
  }

  /** A license that was just born ready, with an end still to come: the renew link is offered and refused. */
  lemma NewbornRenewIsRefused(cfg: Config, c: Cell, l: License, clock: Time, env: Env, device: string, name: string, end: EndParam, later: Env)
    requires Born(cfg, c, l, clock) && cfg.register && cfg.renew && cfg.renewUrl.Default?
    requires l.end.Some? && l.end.value != 0 && Trunc(env.first) <= l.end.value && Faultless(env) && later.readOk
    requires GoodName(device) && GoodName(name) && GoodEnd(cfg, end)
    ensures Offers(ReplyTo(cfg, c, GetStatus, env), cfg, RenewRel)
    ensures !Accepts(cfg, Next(cfg, c, GetStatus, env), RenewLoan(device, name, end), later)
  {
  }

  /** The same for an active license without a maximum end. */
  lemma RenewWithoutMaximumIsRefused(cfg: Config, c: Cell, l: License, clock: Time, env: Env, device: string, name: string, end: EndParam, later: Env)
    requires Born(cfg, c, l, clock) && !cfg.register && cfg.renew && cfg.renewUrl.Default? && cfg.rentingDays <= 0
    requires l.end.Some? && l.end.value != 0 && Trunc(env.first) <= l.end.value && Faultless(env) && later.readOk
    requires GoodName(device) && GoodName(name) && GoodEnd(cfg, end)
    ensures Offers(ReplyTo(cfg, c, GetStatus, env), cfg, RenewRel)
    ensures !Accepts(cfg, Next(cfg, c, GetStatus, env), RenewLoan(device, name, end), later)
  {
  }
}
