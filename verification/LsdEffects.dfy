/**
 What each request does, spelled out on the two rows, the log and the reply: the effects of accepted requests, the code of
 every refusal, and what is left behind when an effect fails.
 */
module LsdEffects {
  import opened Options
  import opened LsdProtocol

  const NANOS := 1_000_000_000
  const TWO63 := 0x8000_0000_0000_0000
  const TWO64 := 0x1_0000_0000_0000_0000

  // ----- time, rows and licenses as they are read and written -----

  /** Truncation gives the last whole second. */
  lemma TruncatedToSeconds(t: Time)
    ensures Trunc(t) <= t < Trunc(t) + 1_000_000_000 && Trunc(t) % 1_000_000_000 == 0
  {
  }

  /** The value of a product of days as an int64 of nanoseconds. */
  predicate IsDays(d: int, days: int) {
    -TWO63 <= d < TWO63 && (d - days * 86_400 * NANOS) % TWO64 == 0
  }

  /** Wrapping adds a multiple of 2^64 and ends in the range of int64. */
  lemma WrapIs(x: int)
    ensures -TWO63 <= Wrap64(x) < TWO63 && (Wrap64(x) - x) % TWO64 == 0
    ensures -TWO63 <= x < TWO63 ==> Wrap64(x) == x
  {
    var q, r := (x + TWO63) / TWO64, (x + TWO63) % TWO64;
    assert Wrap64(x) - x == -q * TWO64;
  }

  lemma WrapIsOnly(x: int, d: int)
    requires -TWO63 <= d < TWO63 && (d - x) % TWO64 == 0
    ensures d == Wrap64(x)
  {
    var q := (d - x) / TWO64;
    assert x + TWO63 == (d + TWO63) - q * TWO64;
  }

  lemma DaysAreWrapped(days: int)
    ensures IsDays(Days(days), days)
    ensures -TWO63 <= days * 86_400 * NANOS < TWO63 ==> Days(days) == days * 86_400 * NANOS
    ensures forall d :: IsDays(d, days) ==> d == Days(days)
  {
    var x := days * 86_400 * NANOS;
    assert DAY * days == x;
    WrapIs(x);
    forall d | IsDays(d, days) ensures d == Days(days) {
      WrapIsOnly(x, d);
    }
    hide Wrap64;
  }

  /** A row as it is read: an unset maximum end is none, and the license date is at least that of the certificate. */
  lemma RowIsRead(cfg: Config, r: Row)
    ensures
      var f := Fetched(cfg, r);
      && f.potentialEnd == (if r.potentialEnd == Some(0) then None else r.potentialEnd)
      && f.licenseUpdated == (if cfg.cert.At? && r.licenseUpdated < cfg.cert.date then cfg.cert.date else r.licenseUpdated)
      && f.id == r.id && f.status == r.status && f.statusUpdated == r.statusUpdated && f.deviceCount == r.deviceCount && f.end == r.end
  {
  }

  /** A row as it is written: only an unset maximum end is changed. */
  lemma RowIsWritten(r: Row)
    ensures Stored(r) == if r.potentialEnd == Some(0) then r.(potentialEnd := None) else r
  {
  }

  /** A license as it is served: its update date becomes that of the certificate exactly when issue and update lie before. */
  lemma LicenseIsServed(cfg: Config, l: License)
    ensures Served(cfg, l).None? <==> cfg.cert.Unparsable?
    ensures
      Served(cfg, l).Some? ==>
        var late := cfg.cert.At? && l.issued < cfg.cert.date && (l.updated.Some? ==> l.updated.value < cfg.cert.date);
        Served(cfg, l).value == if late then l.(updated := Some(cfg.cert.date)) else l
  {
  }

  /** The row of a license that is announced; the maximum end is the later of its end and the issue plus the renting days. */
  lemma NewbornRow(cfg: Config, l: License, id: nat, now: Time, days: int)
    requires IsDays(days, cfg.rentingDays)
    ensures
      var r := NewRow(cfg, l, id, now);
      && r.id == id && (r.status == if cfg.register then Ready else Active)
      && r.licenseUpdated == l.issued && r.statusUpdated == Trunc(now) && r.deviceCount == Some(0) && r.end == l.end
      && r.potentialEnd == (if l.end.None? || !cfg.renew || cfg.rentingDays <= 0 then None
                            else if l.end.value > l.issued + days then l.end else Some(l.issued + days))
  {
    DaysAreWrapped(cfg.rentingDays);
    assert days == Days(cfg.rentingDays);
    hide Days, IsDays;
  }

  // ----- the license server -----

  /** A field that is not asked for stays; a count that is asked for becomes the value, or goes when it is negative. */
  predicate CountPatched(before: Option<int>, asked: Option<int>, after: Option<int>) {
    && (asked.None? ==> after == before)
    && (asked.Some? && asked.value >= 0 ==> after == Some(asked.value))
    && (asked.Some? && asked.value < 0 ==> after == None)
  }

  /** The same for a time, which goes when it is the zero time. */
  predicate TimePatched(before: Option<Time>, asked: Option<Time>, after: Option<Time>) {
    && (asked.None? ==> after == before)
    && (asked.Some? && asked.value != 0 ==> after == Some(asked.value))
    && (asked == Some(0) ==> after == None)
  }

  predicate TextPatched(before: string, asked: string, after: string) {
    (asked == "" ==> after == before) && (asked != "" ==> after == asked)
  }

  /** A PATCH of the license server, field by field; without a rights object nothing changes. */
  lemma LicenseIsPatched(cfg: Config, c: Cell, p: PartialLicense, env: Env)
    requires c.license.Some? && !env.store.Refused?
    ensures
      var l, n := c.license.value, Next(cfg, c, CmsPatch(p), env);
      && n.row == c.row && n.log == c.log && n.license.Some?
      && (p.rights.None? ==> n.license == c.license)
      && (p.rights.Some? ==>
            var m, a := n.license.value, p.rights.value;
            && TextPatched(l.user, p.user, m.user) && TextPatched(l.provider, p.provider, m.provider)
            && TextPatched(l.content, p.content, m.content)
            && CountPatched(l.prints, a.prints, m.prints) && CountPatched(l.copies, a.copies, m.copies)
            && TimePatched(l.start, a.start, m.start) && TimePatched(l.end, a.end, m.end)
            && m.issued == l.issued && m.updated == Some(Trunc(env.first)))
  {
  }

  /** What the license server makes of the body of a PATCH, in the same terms. */
  lemma PatchIsMerged(l: License, p: PartialLicense, now: Time)
    ensures Merge(l, p, now).Some? <==> p.rights.Some?
    ensures
      Merge(l, p, now).Some? ==>
        var m, a := Merge(l, p, now).value, p.rights.value;
        && TextPatched(l.user, p.user, m.user) && TextPatched(l.provider, p.provider, m.provider)
        && TextPatched(l.content, p.content, m.content)
        && CountPatched(l.prints, a.prints, m.prints) && CountPatched(l.copies, a.copies, m.copies)
        && TimePatched(l.start, a.start, m.start) && TimePatched(l.end, a.end, m.end)
        && m.issued == l.issued && m.updated == Some(Trunc(now))
  {
  }

  /** An update of the content stamps the license and changes nothing else. */
  lemma ContentIsTouched(cfg: Config, c: Cell, env: Env)
    ensures
      var n := Next(cfg, c, TouchContent, env);
      && n.row == c.row && n.log == c.log
      && n.license == (if c.license.Some? && !env.store.Refused? then Some(c.license.value.(updated := Some(Trunc(env.first)))) else c.license)
  {
  }

  // ----- accepted requests without faults -----

  predicate Connected(cfg: Config, c: Cell, env: Env) { Faultless(env) && cfg.lcpUrlSet && c.row.Some? && c.license.Some? }

  /** The license server took a new end, the zero time meaning none, and stamped it. */
  predicate EndIsPatched(before: Option<License>, end: Time, now: Time, after: Option<License>) {
    before.Some? && after == Some(before.value.(end := if end == 0 then None else Some(end), updated := Some(Trunc(now))))
  }

  lemma PatchedEnd(l: License, end: Time, now: Time)
    ensures EndIsPatched(Some(l), end, now, Merge(l, EndOnly(end), now))
  {
  }

  predicate NewDevice(log: seq<Event>, device: string) { forall i :: 0 <= i < |log| ==> log[i].device != device }

  /** Registering an unknown device activates the license, counts the device, and answers the row with its new log. */
  lemma RegisteringActivates(cfg: Config, c: Cell, device: string, name: string, env: Env)
    requires Faultless(env) && c.row.Some? && !cfg.goofyMode
    requires 0 < |device| <= 255 && 0 < |name| <= 255
    requires (c.row.value.status == Ready || c.row.value.status == Active) && c.row.value.deviceCount.Some? && NewDevice(c.log, device)
    ensures
      var n, r := Next(cfg, c, RegisterDevice(device, name), env), Fetched(cfg, c.row.value);
      && n.row == Some(r.(status := Active, statusUpdated := Trunc(env.second), deviceCount := Some(c.row.value.deviceCount.value + 1)))
      && n.log == c.log + [Event(r.id, Register, device, name, Trunc(env.second))]
      && n.license == c.license
      && ReplyTo(cfg, c, RegisterDevice(device, name), env) == Document(n.row.value, n.log)
  {
  }

  /** A known device changes nothing and is answered all the same. */
  lemma RegisteringAgainKeeps(cfg: Config, c: Cell, device: string, name: string, env: Env)
    requires Faultless(env) && c.row.Some? && !cfg.goofyMode
    requires 0 < |device| <= 255 && 0 < |name| <= 255
    requires (c.row.value.status == Ready || c.row.value.status == Active) && !NewDevice(c.log, device)
    ensures Next(cfg, c, RegisterDevice(device, name), env) == c
    ensures ReplyTo(cfg, c, RegisterDevice(device, name), env) == Document(Fetched(cfg, c.row.value), c.log)
  {
    assert KnownDevice(c.log, device);
  }

  /** A return cancels a license never used and returns any other, which ends at the second of the call on both servers. */
  lemma ReturningEnds(cfg: Config, c: Cell, device: string, name: string, env: Env)
    requires Connected(cfg, c, env) && |device| <= 255 && |name| <= 255
    requires c.row.value.status == Ready || c.row.value.status == Active || c.row.value.status == Expired
    ensures
      var n, r, t := Next(cfg, c, ReturnLoan(device, name), env), Fetched(cfg, c.row.value), Trunc(env.second);
      && n.row == Some(r.(status := if r.status == Ready then Cancelled else Returned,
                          end := Some(t), statusUpdated := t, licenseUpdated := t, potentialEnd := None))
      && n.log == c.log + [Event(r.id, Return, device, name, t)]
      && EndIsPatched(c.license, t, env.third, n.license)
      && ReplyTo(cfg, c, ReturnLoan(device, name), env) == Document(n.row.value, n.log)
  {
  }

  /** The end asked for: an explicit one as it is, else the base plus the renewal days in 64-bit nanoseconds. */
  predicate IsAskedEnd(cfg: Config, end: EndParam, base: Time, asked: Time) {
    match end
    case Explicit(t) => asked == t
    case Malformed => false
    case Absent => cfg.renewDays != 0 && IsDays(asked - base, cfg.renewDays)
  }

  lemma AskedEndIs(cfg: Config, end: EndParam, base: Time, asked: Time)
    requires IsAskedEnd(cfg, end, base, asked)
    ensures AskedEnd(cfg, end, base) == Some(asked)
  {
    DaysAreWrapped(cfg.renewDays);
  }

  predicate HasEndAndMaximum(r: Row) { r.end.Some? && r.end.value != 0 && r.potentialEnd.Some? && r.potentialEnd.value != 0 }

  /** Both ends move to the end asked for, and the row becomes active, dated at the second of the event. */
  predicate EndsMoved(c: Cell, r: Row, end: Time, device: string, name: string, env: Env, n: Cell) {
    var t := Trunc(env.second);
    && n.row == Some(r.(status := Active, end := Some(end), statusUpdated := t, licenseUpdated := t))
    && n.log == c.log + [Event(r.id, Renew, device, name, t)]
    && EndIsPatched(c.license, end, env.third, n.license)
  }

  /** A renewal of an active license, or of an expired one where that is allowed, to an end between the current one and the
      maximum. The base of a renewal by default is the current end, or the present. */
  lemma RenewingMovesTheEnds(cfg: Config, c: Cell, device: string, name: string, end: EndParam, asked: Time, env: Env)
    requires Connected(cfg, c, env) && |device| <= 255 && |name| <= 255 && HasEndAndMaximum(c.row.value)
    requires c.row.value.status == Active || (c.row.value.status == Expired && cfg.renewExpired)
    requires IsAskedEnd(cfg, end, if cfg.renewFromNow then env.first else c.row.value.end.value, asked)
    requires c.row.value.end.value <= asked <= c.row.value.potentialEnd.value
    ensures
      var n, r := Next(cfg, c, RenewLoan(device, name, end), env), Fetched(cfg, c.row.value);
      && EndsMoved(c, r, asked, device, name, env, n)
      && ReplyTo(cfg, c, RenewLoan(device, name, end), env) == Document(n.row.value, n.log)
  {
    AskedEndIs(cfg, end, if cfg.renewFromNow then env.first else c.row.value.end.value, asked);
  }

  /** A renewal out of these bounds is no error, and changes nothing. */
  lemma RenewingOutOfBoundsKeeps(cfg: Config, c: Cell, device: string, name: string, end: EndParam, asked: Time, env: Env)
    requires Faultless(env) && c.row.Some? && |device| <= 255 && |name| <= 255 && HasEndAndMaximum(c.row.value)
    requires c.row.value.status == Active || (c.row.value.status == Expired && cfg.renewExpired)
    requires IsAskedEnd(cfg, end, if cfg.renewFromNow then env.first else c.row.value.end.value, asked)
    requires asked < c.row.value.end.value || asked > c.row.value.potentialEnd.value
    ensures Next(cfg, c, RenewLoan(device, name, end), env) == c
    ensures ReplyTo(cfg, c, RenewLoan(device, name, end), env) == Document(Fetched(cfg, c.row.value), c.log)
  {
    AskedEndIs(cfg, end, if cfg.renewFromNow then env.first else c.row.value.end.value, asked);
  }

  /** An extension of a license that is ready, active or expired; its base by default is the current end. */
  lemma ExtendingMovesTheEnds(cfg: Config, c: Cell, end: EndParam, asked: Time, env: Env)
    requires Connected(cfg, c, env) && HasEndAndMaximum(c.row.value)
    requires c.row.value.status == Ready || c.row.value.status == Active || c.row.value.status == Expired
    requires IsAskedEnd(cfg, end, c.row.value.end.value, asked)
    requires c.row.value.end.value <= asked <= c.row.value.potentialEnd.value
    ensures
      var n, r := Next(cfg, c, ExtendLoan(end), env), Fetched(cfg, c.row.value);
      && EndsMoved(c, r, asked, "suscription", "subscription", env, n)
      && ReplyTo(cfg, c, ExtendLoan(end), env) == Document(n.row.value, n.log)
  {
    AskedEndIs(cfg, end, c.row.value.end.value, asked);
  }

  /** A cancellation or revocation cancels a license never used and revokes an active one, which ends at the first reading of
      the clock; the answer is empty. */
  lemma CancellingEnds(cfg: Config, c: Cell, wanted: Status, env: Env)
    requires Connected(cfg, c, env)
    requires (c.row.value.status == Ready && (wanted == Cancelled || wanted == Revoked)) || (c.row.value.status == Active && wanted == Revoked)
    ensures
      var n, r, t := Next(cfg, c, CancelLoan(Some(wanted)), env), Fetched(cfg, c.row.value), Trunc(env.first);
      && n.row == Some(r.(status := if r.status == Ready then Cancelled else Revoked,
                          end := Some(t), statusUpdated := t, licenseUpdated := t, potentialEnd := None))
      && n.log == c.log + [Event(r.id, if r.status == Ready then Cancel else Revoke, "system", "system", Trunc(env.third))]
      && EndIsPatched(c.license, t, env.second, n.license)
      && ReplyTo(cfg, c, CancelLoan(Some(wanted)), env) == Empty
  {
  }

  /** A GET expires a ready or active license exactly when its end is past, and changes nothing else. */
  lemma GettingExpires(cfg: Config, c: Cell, env: Env)
    requires Faultless(env) && c.row.Some?
    ensures
      var n, r := Next(cfg, c, GetStatus, env), Fetched(cfg, c.row.value);
      var past := r.end.Some? && Trunc(env.first) > r.end.value && (r.status == Ready || r.status == Active);
      && (past ==> n == c.(row := Some(r.(status := Expired, statusUpdated := Trunc(env.second)))))
      && (!past ==> n == c)
      && ReplyTo(cfg, c, GetStatus, env) == Document(if past then n.row.value else r, c.log)
  {
  }

  // ----- refusals -----

  /** Refused with a code, without any effect. */
  predicate RefusedWith(cfg: Config, c: Cell, op: Op, env: Env, code: int)
    requires OnStatusServer(op)
  {
    Next(cfg, c, op, env) == c && ReplyTo(cfg, c, op, env) == Error(code)
  }

  /** A row that cannot be read, or is not there, is refused by every handler whose parameters are in order. */
  lemma NoRowIsRefused(cfg: Config, c: Cell, op: Op, env: Env)
    requires OnStatusServer(op) && (!env.readOk || c.row.None?)
    requires op.RegisterDevice? ==> 0 < |op.device| <= 255 && 0 < |op.name| <= 255
    requires op.RenewLoan? ==> |op.device| <= 255 && |op.name| <= 255
    ensures RefusedWith(cfg, c, op, env, if !env.readOk then 500 else 404)
  {
  }

  lemma RegisteringIsRefused(cfg: Config, c: Cell, device: string, name: string, env: Env)
    ensures
      var op := RegisterDevice(device, name);
      && (!(0 < |device| <= 255 && 0 < |name| <= 255) ==> RefusedWith(cfg, c, op, env, 400))
      && (0 < |device| <= 255 && 0 < |name| <= 255 && env.readOk && c.row.Some? ==>
            && (cfg.goofyMode ==> RefusedWith(cfg, c, op, env, 400))
            && (!cfg.goofyMode && c.row.value.status != Ready && c.row.value.status != Active ==> RefusedWith(cfg, c, op, env, 403))
            && (!cfg.goofyMode && (c.row.value.status == Ready || c.row.value.status == Active) && !env.queryOk ==>
                  RefusedWith(cfg, c, op, env, 500)))
  {
  }

  lemma ReturningIsRefused(cfg: Config, c: Cell, device: string, name: string, env: Env)
    requires env.readOk && c.row.Some?
    ensures
      var op := ReturnLoan(device, name);
      && (|device| > 255 || |name| > 255 ==> RefusedWith(cfg, c, op, env, 400))
      && (|device| <= 255 && |name| <= 255 && (c.row.value.status == Returned || c.row.value.status == Revoked || c.row.value.status == Cancelled) ==>
            RefusedWith(cfg, c, op, env, 403))
  {
  }

  lemma RenewingIsRefused(cfg: Config, c: Cell, device: string, name: string, end: EndParam, env: Env)
    ensures
      var op := RenewLoan(device, name, end);
      && (|device| > 255 || |name| > 255 ==> RefusedWith(cfg, c, op, env, 400))
      && (|device| <= 255 && |name| <= 255 && env.readOk && c.row.Some? ==>
            && (c.row.value.status != Active && !(c.row.value.status == Expired && cfg.renewExpired) ==> RefusedWith(cfg, c, op, env, 400))
            && (!HasEndAndMaximum(c.row.value) ==> RefusedWith(cfg, c, op, env, 400))
            && (end.Malformed? || (end.Absent? && cfg.renewDays == 0) ==> RefusedWith(cfg, c, op, env, 400)))
  {
  }

  lemma ExtendingIsRefused(cfg: Config, c: Cell, end: EndParam, env: Env)
    requires env.readOk && c.row.Some?
    ensures
      var op, r := ExtendLoan(end), c.row.value;
      var noMaximum := r.potentialEnd.None? || r.potentialEnd.value == 0;
      var over := r.status == Returned || r.status == Revoked || r.status == Cancelled;
      && (noMaximum || over ==> RefusedWith(cfg, c, op, env, 400))
      && (!noMaximum && !over ==>
            && (r.end.None? || r.end.value == 0 ==> RefusedWith(cfg, c, op, env, 403))
            && (r.end.Some? && r.end.value != 0 ==>
                  && (end.Malformed? ==> RefusedWith(cfg, c, op, env, 400))
                  && (end.Absent? && cfg.renewDays == 0 ==> RefusedWith(cfg, c, op, env, 500))
                  && forall asked :: IsAskedEnd(cfg, end, r.end.value, asked) && (asked < r.end.value || asked > r.potentialEnd.value) ==>
                       RefusedWith(cfg, c, op, env, 403)))
  {
    var r := c.row.value;
    if r.end.Some? {
      forall asked | IsAskedEnd(cfg, end, r.end.value, asked) ensures AskedEnd(cfg, end, r.end.value) == Some(asked) {
        AskedEndIs(cfg, end, r.end.value, asked);
      }
    }
  }

  lemma CancellingIsRefused(cfg: Config, c: Cell, wanted: Option<Status>, env: Env)
    requires env.readOk && c.row.Some?
    ensures
      var op, s := CancelLoan(wanted), c.row.value.status;
      && (wanted.None? ==> RefusedWith(cfg, c, op, env, 500))
      && (wanted.Some? && wanted.value != Revoked && wanted.value != Cancelled ==> RefusedWith(cfg, c, op, env, 400))
      && (wanted == Some(Cancelled) && s != Ready ==> RefusedWith(cfg, c, op, env, 400))
      && (wanted == Some(Revoked) && s != Ready && s != Active ==> RefusedWith(cfg, c, op, env, 400))
  {
  }

  // ----- faults -----

  /** Return, renewal and extension log first, then patch, then write the row; each effect needs the one before to be
      answered without an error. */
  lemma LoggedThenPatchedThenWritten(cfg: Config, c: Cell, op: Op, env: Env)
    requires op.ReturnLoan? || op.RenewLoan? || op.ExtendLoan?
    ensures
      var n := Next(cfg, c, op, env);
      && (n.log != c.log ==> !env.log.Refused?)
      && (n.license != c.license ==> |n.log| == |c.log| + 1 && env.log.Done? && !env.patch.Refused? && cfg.lcpUrlSet)
      && (n.row != c.row ==> |n.log| == |c.log| + 1 && env.log.Done? && env.patch.Done? && cfg.lcpUrlSet && c.license.Some? && !env.store.Refused?)
  {
  }

  /** Cancelling patches first, then logs, then writes the row. */
  lemma PatchedThenLoggedThenWritten(cfg: Config, c: Cell, wanted: Option<Status>, env: Env)
    ensures
      var n := Next(cfg, c, CancelLoan(wanted), env);
      && (n.license != c.license ==> !env.patch.Refused? && cfg.lcpUrlSet)
      && (n.log != c.log ==> env.patch.Done? && cfg.lcpUrlSet && c.license.Some? && !env.log.Refused?)
      && (n.row != c.row ==> |n.log| == |c.log| + 1 && env.patch.Done? && env.log.Done? && !env.store.Refused?)
  {
  }

  /** The code with which a failed PATCH is told: 500 when it cannot be sent or is not answered, 404 when it finds no license,
      and whatever else the license server says. */
  predicate IsPatchCode(cfg: Config, c: Cell, env: Env, code: int) {
    && (!cfg.lcpUrlSet ==> code == 500)
    && (cfg.lcpUrlSet && env.patch.Done? ==> c.license.None? && code == 404)
    && (cfg.lcpUrlSet && !env.patch.Done? ==> code == if env.patchCode.Some? then env.patchCode.value else 500)
  }

  predicate PatchWorks(cfg: Config, c: Cell, env: Env) { cfg.lcpUrlSet && c.license.Some? && env.patch.Done? }

  /** What an accepted return tells when an effect or the listing of events fails. */
  lemma ReturnFaultsAreTold(cfg: Config, c: Cell, device: string, name: string, env: Env)
    requires env.readOk && c.row.Some? && |device| <= 255 && |name| <= 255
    requires c.row.value.status == Ready || c.row.value.status == Active || c.row.value.status == Expired
    ensures
      var reply := ReplyTo(cfg, c, ReturnLoan(device, name), env);
      && (!env.log.Done? ==> reply == Error(500))
      && (env.log.Done? && !PatchWorks(cfg, c, env) ==> reply.Error? && IsPatchCode(cfg, c, env, reply.code))
      && (env.log.Done? && PatchWorks(cfg, c, env) && (!env.store.Done? || env.listing.Broken?) ==> reply == Error(500))
  {
  }

  /** The same for a renewal within its bounds. */
  lemma RenewalFaultsAreTold(cfg: Config, c: Cell, device: string, name: string, end: EndParam, asked: Time, env: Env)
    requires env.readOk && c.row.Some? && |device| <= 255 && |name| <= 255 && HasEndAndMaximum(c.row.value)
    requires c.row.value.status == Active || (c.row.value.status == Expired && cfg.renewExpired)
    requires IsAskedEnd(cfg, end, if cfg.renewFromNow then env.first else c.row.value.end.value, asked)
    requires c.row.value.end.value <= asked <= c.row.value.potentialEnd.value
    ensures
      var reply := ReplyTo(cfg, c, RenewLoan(device, name, end), env);
      && (!env.log.Done? ==> reply == Error(500))
      && (env.log.Done? && !PatchWorks(cfg, c, env) ==> reply.Error? && IsPatchCode(cfg, c, env, reply.code))
      && (env.log.Done? && PatchWorks(cfg, c, env) && (!env.store.Done? || env.listing.Broken?) ==> reply == Error(500))
  {
    AskedEndIs(cfg, end, if cfg.renewFromNow then env.first else c.row.value.end.value, asked);
  }

  /** The same for a cancellation, which patches first and lists no events. */
  lemma CancelFaultsAreTold(cfg: Config, c: Cell, wanted: Status, env: Env)
    requires env.readOk && c.row.Some?
    requires (c.row.value.status == Ready && (wanted == Cancelled || wanted == Revoked)) || (c.row.value.status == Active && wanted == Revoked)
    ensures
      var reply := ReplyTo(cfg, c, CancelLoan(Some(wanted)), env);
      && (!PatchWorks(cfg, c, env) ==> reply.Error? && IsPatchCode(cfg, c, env, reply.code))
      && (PatchWorks(cfg, c, env) && !(env.log.Done? && env.store.Done?) ==> reply == Error(500))
  {
  }

  /** A registration writes the row only behind its event, and tells of every fault. */
  lemma RegistrationFaultsAreTold(cfg: Config, c: Cell, device: string, name: string, env: Env)
    requires env.readOk && env.queryOk && c.row.Some? && !cfg.goofyMode && 0 < |device| <= 255 && 0 < |name| <= 255
    requires (c.row.value.status == Ready || c.row.value.status == Active) && c.row.value.deviceCount.Some? && NewDevice(c.log, device)
    ensures
      var op := RegisterDevice(device, name);
      var n, reply := Next(cfg, c, op, env), ReplyTo(cfg, c, op, env);
      && (n.row != c.row ==> |n.log| == |c.log| + 1 && env.log.Done? && !env.store.Refused?)
      && (n.log != c.log ==> !env.log.Refused?)
      && (!(env.log.Done? && env.store.Done?) || env.listing.Broken? ==> reply == Error(500))
  {
  }

  /** The events of a document: all, the first ones, or an error. */
  lemma EventsAreListed(r: Row, log: seq<Event>, n: nat)
    ensures Listed(r, log, Whole) == Document(r, log) && Listed(r, log, Broken) == Error(500)
    ensures n <= |log| ==> Listed(r, log, Cut(n)) == Document(r, log[..n])
    ensures n >= |log| ==> Listed(r, log, Cut(n)) == Document(r, log)
  {
  }

  // ----- links -----

  /** Which links a document offers, both ways. */
  lemma LinksAreOffered(cfg: Config, r: Row)
    ensures
      var links := Links(cfg, r);
      var usable := r.status == Ready || r.status == Active;
      var ends := r.end.Some? && r.end.value != 0;
      && SelfRel in links && LicenseRel in links
      && (RegisterRel in links <==> cfg.register && usable)
      && (ReturnRel in links <==> cfg.giveBack && ends && usable)
      && (RenewRel in links <==> cfg.renew && ends && (usable || (cfg.renewExpired && r.status == Expired)))
  {
  }
}
