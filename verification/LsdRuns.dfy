/**
 The license status protocol over whole runs: any sequence of calls on the two servers, each call
 with its own faults, under one clock that never goes back.
 */
module LsdRuns {
  import opened Options
  import opened LsdProtocol
  import opened LsdInvariants

  // ----- composing runs -----

  lemma {:induction false} RunInTwo(cfg: Config, c: Cell, a: seq<Call>, b: seq<Call>)
    ensures Run(cfg, c, a + b) == Run(cfg, Run(cfg, c, a), b)
    decreases |a|
  {
    if a == [] {
      assert a + b == b;
    } else {
      assert (a + b)[1..] == a[1..] + b;
      RunInTwo(cfg, Next(cfg, c, a[0].op, a[0].env), a[1..], b);
    }
  }

  /** The state after the first `i` calls. */
  function After(cfg: Config, c: Cell, calls: seq<Call>, i: nat): (r: Cell)
    requires i <= |calls|
  {
    Run(cfg, c, calls[..i])
  }

  lemma OneMore(cfg: Config, c: Cell, calls: seq<Call>, i: nat)
    requires i < |calls|
    ensures After(cfg, c, calls, i + 1) == Next(cfg, After(cfg, c, calls, i), calls[i].op, calls[i].env)
  {
    assert calls[..i + 1] == calls[..i] + [calls[i]];
    RunInTwo(cfg, c, calls[..i], [calls[i]]);
    var s := After(cfg, c, calls, i);
    assert [calls[i]][1..] == [];
    assert Run(cfg, s, [calls[i]]) == Run(cfg, Next(cfg, s, calls[i].op, calls[i].env), []);
  }

  lemma {:induction false} RowStays(cfg: Config, c: Cell, calls: seq<Call>)
    requires c.row.Some?
    ensures Run(cfg, c, calls).row.Some?
    decreases |calls|
  {
    if calls != [] {
      StatusMoves(cfg, c, calls[0].op, calls[0].env);
      RowStays(cfg, Next(cfg, c, calls[0].op, calls[0].env), calls[1..]);
    }
  }

  // ----- status histories -----

  /** Every stored status history is a path of the diagram. */
  lemma HistoryIsAPath(cfg: Config, c: Cell, calls: seq<Call>, i: nat)
    requires c.row.Some? && i < |calls|
    ensures After(cfg, c, calls, i).row.Some? && After(cfg, c, calls, i + 1).row.Some?
    ensures Move(After(cfg, c, calls, i).row.value.status, After(cfg, c, calls, i + 1).row.value.status)
  {
    RowStays(cfg, c, calls[..i]);
    OneMore(cfg, c, calls, i);
    StatusMoves(cfg, After(cfg, c, calls, i), calls[i].op, calls[i].env);
  }

  /** Returned, revoked and cancelled absorb: from then on the row never changes, whatever is called or fails. */
  lemma {:induction false} TerminalRowsNeverChange(cfg: Config, c: Cell, calls: seq<Call>, i: nat, j: nat)
    requires c.row.Some? && i <= j <= |calls|
    requires After(cfg, c, calls, i).row.Some? && Terminal(After(cfg, c, calls, i).row.value.status)
    ensures After(cfg, c, calls, j).row == After(cfg, c, calls, i).row
    decreases j - i
  {
    if i < j {
      TerminalRowsNeverChange(cfg, c, calls, i, j - 1);
      OneMore(cfg, c, calls, j - 1);
      StatusMoves(cfg, After(cfg, c, calls, j - 1), calls[j - 1].op, calls[j - 1].env);
    }
  }

  // ----- what holds in every reachable state, faults included -----

  ghost predicate Sound(cfg: Config, l: License, maximum: Option<Time>, clock: Time, c: Cell) {
    && Fresh(cfg, clock, c)
    && Justified(c)
    && EndsInRange(l, maximum, c)
    && DevicesCounted(c)
  }

  lemma SoundAtBirth(cfg: Config, c: Cell, l: License, clock: Time)
    requires Born(cfg, c, l, clock)
    ensures Sound(cfg, l, c.row.value.potentialEnd, clock, c) && EndsAgree(c) && CountIsExact(c) && ReadyIsUnused(c)
    ensures c.row.value.potentialEnd.Some? ==> LcpBounded(c.row.value.potentialEnd.value, clock, c)
  {
  }

  lemma {:induction false} SoundForever(cfg: Config, l: License, maximum: Option<Time>, clock: Time, c: Cell, calls: seq<Call>)
    requires Sound(cfg, l, maximum, clock, c) && Timely(clock, calls)
    ensures Sound(cfg, l, maximum, ClockAfter(clock, calls), Run(cfg, c, calls))
    ensures clock <= ClockAfter(clock, calls)
    decreases |calls|
  {
    if calls != [] {
      var op, env := calls[0].op, calls[0].env;
      StaysFresh(cfg, clock, c, op, env);
      TerminalIsJustified(cfg, c, op, env);
      EndsStayInRange(cfg, l, maximum, c, op, env);
      DevicesStayCounted(cfg, c, op, env);
      SoundForever(cfg, l, maximum, env.third, Next(cfg, c, op, env), calls[1..]);
    }
  }

  /** Over every run from birth: the maximum end and the range of the end hold while the license is not terminal,
      a terminal row has its event, no device registers twice, and the count never exceeds the register events. */
  lemma ReachableIsSound(cfg: Config, c: Cell, l: License, clock: Time, calls: seq<Call>)
    requires Born(cfg, c, l, clock) && Timely(clock, calls)
    ensures Sound(cfg, l, c.row.value.potentialEnd, ClockAfter(clock, calls), Run(cfg, c, calls))
  {
    SoundAtBirth(cfg, c, l, clock);
    SoundForever(cfg, l, c.row.value.potentialEnd, clock, c, calls);
  }

  lemma {:induction false} FreshestGrowsForever(cfg: Config, l: License, maximum: Option<Time>, clock: Time, c: Cell, calls: seq<Call>)
    requires Sound(cfg, l, maximum, clock, c) && Timely(clock, calls)
    ensures Run(cfg, c, calls).license.Some?
    ensures Freshest(cfg, c.license.value) <= Freshest(cfg, Run(cfg, c, calls).license.value)
    decreases |calls|
  {
    if calls != [] {
      var op, env := calls[0].op, calls[0].env;
      FreshestGrows(cfg, clock, c, op, env);
      assert [calls[0]][1..] == [] && Timely(clock, [calls[0]]);
      SoundForever(cfg, l, maximum, clock, c, [calls[0]]);
      assert Run(cfg, c, [calls[0]]) == Run(cfg, Next(cfg, c, op, env), []);
      FreshestGrowsForever(cfg, l, maximum, env.third, Next(cfg, c, op, env), calls[1..]);
    }
  }

  /** Whichever handler answers a status document after any run, with any faults, and whatever happens before the client
      fetches the license: it gets one at least as recent as announced. */
  lemma ReachableIsFresh(cfg: Config, c: Cell, l: License, clock: Time, calls: seq<Call>, op: Op, env: Env, later: seq<Call>)
    requires Born(cfg, c, l, clock) && OnStatusServer(op)
    requires Timely(clock, calls) && ClockAfter(clock, calls) <= env.first && Ordered(env) && Timely(env.third, later)
    ensures
      var s := Run(cfg, c, calls);
      var reply := ReplyTo(cfg, s, op, env);
      var f := Run(cfg, Next(cfg, s, op, env), later);
      && f.license.Some?
      && (reply.Document? && Served(cfg, f.license.value).Some? ==>
            var served := Served(cfg, f.license.value).value;
            reply.row.licenseUpdated <= if served.updated.Some? then Max(served.issued, served.updated.value) else served.issued)
  {
    ReachableIsSound(cfg, c, l, clock, calls);
    var maximum, now, s := c.row.value.potentialEnd, ClockAfter(clock, calls), Run(cfg, c, calls);
    DocumentsAreFresh(cfg, now, s, op, env);
    var call := [Call(op, env)];
    assert call[1..] == [] && Timely(now, call);
    SoundForever(cfg, l, maximum, now, s, call);
    assert Run(cfg, s, call) == Run(cfg, Next(cfg, s, op, env), []);
    FreshestGrowsForever(cfg, l, maximum, env.third, Next(cfg, s, op, env), later);
    ServedIsFreshest(cfg, Run(cfg, Next(cfg, s, op, env), later).license.value);
  }

  /** The GET of a reachable license is answered, faults apart. */
  lemma ReachableIsServed(cfg: Config, c: Cell, l: License, clock: Time, calls: seq<Call>, env: Env)
    requires Born(cfg, c, l, clock) && Timely(clock, calls) && Faultless(env)
    ensures ReplyTo(cfg, Run(cfg, c, calls), GetStatus, env).Document?
  {
    ReachableIsSound(cfg, c, l, clock, calls);
  }

  /** The device count of a reachable row is never nil where a registration increments it. */
  lemma CountIsNeverNil(cfg: Config, c: Cell, l: License, clock: Time, calls: seq<Call>, op: Op, env: Env)
    requires Born(cfg, c, l, clock) && Timely(clock, calls) && OnStatusServer(op)
    ensures !PlanOf(cfg, Run(cfg, c, calls), op, env).LogCrash?
  {
    ReachableIsSound(cfg, c, l, clock, calls);
    DevicesStayCounted(cfg, Run(cfg, c, calls), op, env);
  }

  // ----- the end kept by the license server -----

  predicate NoCms(calls: seq<Call>) { forall i :: 0 <= i < |calls| ==> FromStatusServer(calls[i].op) }

  predicate AllFaultless(calls: seq<Call>) { forall i :: 0 <= i < |calls| ==> Faultless(calls[i].env) }

  lemma {:induction false} BoundedForever(cfg: Config, l: License, maximum: Time, clock: Time, c: Cell, calls: seq<Call>)
    requires EndsInRange(l, Some(maximum), c) && LcpBounded(maximum, clock, c)
    requires l.end.value >= 0 || maximum < 0 || !cfg.lcpUrlSet
    requires SECOND <= clock && Timely(clock, calls) && NoCms(calls)
    ensures LcpBounded(maximum, ClockAfter(clock, calls), Run(cfg, c, calls))
    decreases |calls|
  {
    if calls != [] {
      var op, env := calls[0].op, calls[0].env;
      assert FromStatusServer(op);
      EndsStayInRange(cfg, l, Some(maximum), c, op, env);
      LcpStaysBounded(cfg, l, maximum, clock, c, op, env);
      BoundedForever(cfg, l, maximum, env.third, Next(cfg, c, op, env), calls[1..]);
    }
  }

  /** An end before year 1 can be extended to the zero time, and the license server drops the end altogether. */
  lemma BoundLost(cfg: Config, c: Cell, l: License, clock: Time) returns (calls: seq<Call>)
    requires Born(cfg, c, l, clock) && c.row.value.potentialEnd.Some?
    requires l.end.value < 0 < c.row.value.potentialEnd.value && cfg.lcpUrlSet
    ensures Timely(clock, calls) && NoCms(calls) && AllFaultless(calls)
    ensures Run(cfg, c, calls).license.Some? && Run(cfg, c, calls).license.value.end.None?
    ensures !EndsAgree(Run(cfg, c, calls))
  {
    var env := Env(true, true, Whole, clock, clock, clock, Done, Done, None, Done);
    calls := [Call(ExtendLoan(Explicit(0)), env)];
    assert calls[1..] == [];
    assert Timely(clock, calls[1..]);
    var n := Next(cfg, c, calls[0].op, env);
    assert Run(cfg, c, calls) == Run(cfg, n, []);
  }

  /** For a license born with a maximum end: in every reachable state, faults included, the end kept by the license
      server is bounded by that maximum or by the present, exactly when the original end is not before year 1
      (or the maximum is, or the servers are not connected). */
  lemma LcpEndIsBounded(cfg: Config, c: Cell, l: License, clock: Time)
    requires Born(cfg, c, l, clock) && c.row.value.potentialEnd.Some?
    ensures
      (forall calls :: Timely(clock, calls) && NoCms(calls) ==>
         LcpBounded(c.row.value.potentialEnd.value, ClockAfter(clock, calls), Run(cfg, c, calls)))
      <==> (l.end.value >= 0 || c.row.value.potentialEnd.value < 0 || !cfg.lcpUrlSet)
  {
    var maximum := c.row.value.potentialEnd.value;
    SoundAtBirth(cfg, c, l, clock);
    if l.end.value >= 0 || maximum < 0 || !cfg.lcpUrlSet {
      forall calls | Timely(clock, calls) && NoCms(calls)
        ensures LcpBounded(maximum, ClockAfter(clock, calls), Run(cfg, c, calls))
      {
        BoundedForever(cfg, l, maximum, clock, c, calls);
      }
    } else {
      var calls := BoundLost(cfg, c, l, clock);
      assert !LcpBounded(maximum, ClockAfter(clock, calls), Run(cfg, c, calls));
    }
  }

  // ----- faultless runs -----

  lemma {:induction false} CountExactForever(cfg: Config, c: Cell, calls: seq<Call>)
    requires CountIsExact(c) && DevicesCounted(c) && AllFaultless(calls)
    ensures CountIsExact(Run(cfg, c, calls)) && DevicesCounted(Run(cfg, c, calls))
    decreases |calls|
  {
    if calls != [] {
      assert Faultless(calls[0].env);
      CountStaysExact(cfg, c, calls[0].op, calls[0].env);
      DevicesStayCounted(cfg, c, calls[0].op, calls[0].env);
      CountExactForever(cfg, Next(cfg, c, calls[0].op, calls[0].env), calls[1..]);
    }
  }

  /** Over every faultless run of both servers, direct patches included: the device count is the number of register
      events and of registered devices, none of them twice. */
  lemma FaultlessRunsCountDevices(cfg: Config, c: Cell, l: License, clock: Time, calls: seq<Call>)
    requires Born(cfg, c, l, clock) && AllFaultless(calls)
    ensures
      var s := Run(cfg, c, calls);
      s.row.Some? && s.row.value.deviceCount == Some(|Registered(s.log)|) && Distinct(Registered(s.log))
  {
    SoundAtBirth(cfg, c, l, clock);
    CountExactForever(cfg, c, calls);
  }

  lemma {:induction false} ReadyUnusedForever(cfg: Config, c: Cell, calls: seq<Call>)
    requires ReadyIsUnused(c) && DevicesCounted(c) && c.license.Some? && cfg.lcpUrlSet && AllFaultless(calls)
    ensures ReadyIsUnused(Run(cfg, c, calls))
    decreases |calls|
  {
    if calls != [] {
      assert Faultless(calls[0].env);
      ReadyStaysUnused(cfg, c, calls[0].op, calls[0].env);
      DevicesStayCounted(cfg, c, calls[0].op, calls[0].env);
      ReadyUnusedForever(cfg, Next(cfg, c, calls[0].op, calls[0].env), calls[1..]);
    }
  }

  lemma {:induction false} NeverReady(cfg: Config, c: Cell, calls: seq<Call>)
    requires c.row.Some? && !c.row.value.status.Ready?
    ensures Run(cfg, c, calls).row.Some? && !Run(cfg, c, calls).row.value.status.Ready?
    decreases |calls|
  {
    if calls != [] {
      StatusMoves(cfg, c, calls[0].op, calls[0].env);
      NeverReady(cfg, Next(cfg, c, calls[0].op, calls[0].env), calls[1..]);
    }
  }

  /** Without a connection to the license server, a return logs its event and then fails on a license that stays ready. */
  lemma UsedWhileReady(cfg: Config, c: Cell, l: License, clock: Time) returns (calls: seq<Call>)
    requires Born(cfg, c, l, clock) && cfg.register && !cfg.lcpUrlSet
    ensures Timely(clock, calls) && AllFaultless(calls) && !ReadyIsUnused(Run(cfg, c, calls))
  {
    var env := Env(true, true, Whole, clock, clock, clock, Done, Done, None, Done);
    calls := [Call(ReturnLoan("", ""), env)];
    assert calls[1..] == [];
    assert Timely(clock, calls[1..]);
    var n := Next(cfg, c, calls[0].op, env);
    assert Run(cfg, c, calls) == Run(cfg, n, []);
  }

  /** A ready license has an empty log in every faultless run, exactly when the servers are connected (or no license is
      ever ready). */
  lemma FaultlessReadyIsUnused(cfg: Config, c: Cell, l: License, clock: Time)
    requires Born(cfg, c, l, clock)
    ensures
      (forall calls :: Timely(clock, calls) && AllFaultless(calls) ==> ReadyIsUnused(Run(cfg, c, calls)))
      <==> (cfg.lcpUrlSet || !cfg.register)
  {
    SoundAtBirth(cfg, c, l, clock);
    if cfg.lcpUrlSet || !cfg.register {
      forall calls | Timely(clock, calls) && AllFaultless(calls)
        ensures ReadyIsUnused(Run(cfg, c, calls))
      {
        if cfg.lcpUrlSet {
          ReadyUnusedForever(cfg, c, calls);
        } else {
          NeverReady(cfg, c, calls);
        }
      }
    } else {
      var calls := UsedWhileReady(cfg, c, l, clock);
      assert !ReadyIsUnused(Run(cfg, c, calls));
    }
  }

  lemma {:induction false} EndsAgreeForever(cfg: Config, l: License, maximum: Option<Time>, clock: Time, c: Cell, calls: seq<Call>)
    requires EndsAgree(c) && EndsInRange(l, maximum, c) && DevicesCounted(c)
    requires maximum.Some? && cfg.lcpUrlSet ==> l.end.value >= 0 || maximum.value < 0
    requires SECOND <= clock && Timely(clock, calls) && NoCms(calls) && AllFaultless(calls)
    ensures EndsAgree(Run(cfg, c, calls))
    decreases |calls|
  {
    if calls != [] {
      var op, env := calls[0].op, calls[0].env;
      assert FromStatusServer(op) && Faultless(env);
      EndsStayInRange(cfg, l, maximum, c, op, env);
      DevicesStayCounted(cfg, c, op, env);
      EndsStayAgreed(cfg, l, maximum, clock, c, op, env);
      EndsAgreeForever(cfg, l, maximum, env.third, Next(cfg, c, op, env), calls[1..]);
    }
  }

  /** Without faults the two servers agree on the end in every reachable state, exactly when no end before year 1 can be
      extended to the zero time. */
  lemma FaultlessEndsAgree(cfg: Config, c: Cell, l: License, clock: Time)
    requires Born(cfg, c, l, clock)
    ensures
      (forall calls :: Timely(clock, calls) && NoCms(calls) && AllFaultless(calls) ==> EndsAgree(Run(cfg, c, calls)))
      <==> (c.row.value.potentialEnd.Some? && cfg.lcpUrlSet ==> l.end.value >= 0 || c.row.value.potentialEnd.value < 0)
  {
    SoundAtBirth(cfg, c, l, clock);
    var maximum := c.row.value.potentialEnd;
    if maximum.Some? && cfg.lcpUrlSet ==> l.end.value >= 0 || maximum.value < 0 {
      forall calls | Timely(clock, calls) && NoCms(calls) && AllFaultless(calls)
        ensures EndsAgree(Run(cfg, c, calls))
      {
        EndsAgreeForever(cfg, l, maximum, clock, c, calls);
      }
    } else {
      var calls := BoundLost(cfg, c, l, clock);
      assert !EndsAgree(Run(cfg, c, calls));
    }
  }
}
