/**
 The License Status protocol on values: the row, event log and LCP license that belong to one
 license, what every handler of the status server decides after reading the row (`PlanOf`), and
 how the decided effects are carried out when any of them may fail (`Perform`).

 The handlers of one license run one at a time (the code takes no lock); license and status server
 share a clock whose readings never decrease.
 */
module LsdProtocol {
  import opened Options

  // ----- time -----

  /** Nanoseconds since January 1, year 1, 00:00 UTC: Go's zero time is 0. */
  type Time = int

  const SECOND := 1_000_000_000
  const DAY := 86_400 * SECOND

  /** `Truncate(time.Second)`: rounds down since the zero time. */
  function Trunc(t: Time): (r: Time) { t - t % SECOND }

  /** Two's complement wrap-around of int64. */
  function Wrap64(x: int): (r: int) {
    (x + 0x8000_0000_0000_0000) % 0x1_0000_0000_0000_0000 - 0x8000_0000_0000_0000
  }

  /** `24 * time.Hour * time.Duration(days)`, an int64 product of nanoseconds. */
  function Days(days: int): (r: int) { Wrap64(DAY * days) }

  function Max(a: int, b: int): (r: int) { if a < b then b else a }

  // ----- entities -----

  datatype Status = Ready | Active | Revoked | Returned | Cancelled | Expired

  predicate Terminal(s: Status) { s.Revoked? || s.Returned? || s.Cancelled? }

  datatype EventKind = Register | Revoke | Return | Cancel | Renew

  datatype Event = Event(rowId: nat, kind: EventKind, device: string, name: string, time: Time)

  datatype Row = Row(
    id: nat,
    status: Status,
    licenseUpdated: Time,
    statusUpdated: Time,
    deviceCount: Option<int>,
    potentialEnd: Option<Time>,
    end: Option<Time>)

  /** A row of the license server. */
  datatype License = License(
    user: string,
    provider: string,
    content: string,
    issued: Time,
    updated: Option<Time>,
    prints: Option<int>,
    copies: Option<int>,
    start: Option<Time>,
    end: Option<Time>)

  datatype CertDate = Unset | Unparsable | At(date: Time)

  datatype RenewUrl = Default | WebPage | Custom

  datatype Config = Config(
    register: bool,
    renew: bool,
    giveBack: bool,
    rentingDays: int,
    renewDays: int,
    renewExpired: bool,
    renewFromNow: bool,
    renewUrl: RenewUrl,
    goofyMode: bool,
    lcpUrlSet: bool,
    cert: CertDate)

  /** Everything the two servers hold about one license. */
  datatype Cell = Cell(row: Option<Row>, log: seq<Event>, license: Option<License>)

  // ----- license server -----

  datatype PartialRights = PartialRights(prints: Option<int>, copies: Option<int>, start: Option<Time>, end: Option<Time>)

  datatype PartialLicense = PartialLicense(user: string, provider: string, content: string, rights: Option<PartialRights>)

  /** A negative number means "unconstrained". */
  function MergeCount(current: Option<int>, asked: Option<int>): (r: Option<int>) {
    if asked.None? then current else if asked.value >= 0 then asked else None
  }

  /** The zero time means "unconstrained". */
  function MergeTime(current: Option<Time>, asked: Option<Time>): (r: Option<Time>) {
    if asked.None? then current else if asked.value != 0 then asked else None
  }

  /** What PATCH leaves in the license row; None when the request has no rights object, where the
      handler dereferences nil before it reaches the database. */
  function Merge(l: License, p: PartialLicense, now: Time): (r: Option<License>) {
    if p.rights.None? then None else
      var r := p.rights.value;
      Some(License(
             if p.user != "" then p.user else l.user,
             if p.provider != "" then p.provider else l.provider,
             if p.content != "" then p.content else l.content,
             l.issued, Some(Trunc(now)),
             MergeCount(l.prints, r.prints), MergeCount(l.copies, r.copies),
             MergeTime(l.start, r.start), MergeTime(l.end, r.end)))
  }

  /** The PATCH body the status server sends: nothing but a new end. */
  function EndOnly(end: Time): (r: PartialLicense) {
    PartialLicense("", "", "", Some(PartialRights(None, None, None, Some(end))))
  }

  /** The certificate fix applied to a license before it is served; None when the configured date does not parse. */
  function Served(cfg: Config, l: License): (r: Option<License>) {
    match cfg.cert
    case Unset => Some(l)
    case Unparsable => None
    case At(d) =>
      if l.issued < d && (l.updated.None? || l.updated.value < d) then Some(l.(updated := Some(d))) else Some(l)
  }

  // ----- status rows -----

  /** A zero potential end is read and written as NULL. */
  function NonZero(t: Option<Time>): (r: Option<Time>) { if t == Some(0) then None else t }

  /** The row as the database keeps it. */
  function Stored(r: Row): (q: Row) { r.(potentialEnd := NonZero(r.potentialEnd)) }

  /** The row as a handler sees it, certificate fix included. */
  function Fetched(cfg: Config, r: Row): (q: Row) {
    r.(potentialEnd := NonZero(r.potentialEnd),
       licenseUpdated := if cfg.cert.At? then Max(r.licenseUpdated, cfg.cert.date) else r.licenseUpdated)
  }

  /** The row created when the license server announces a license. */
  function NewRow(cfg: Config, l: License, id: nat, now: Time): (r: Row) {
    Row(id,
        if cfg.register then Ready else Active,
        l.issued,
        Trunc(now),
        Some(0),
        if l.end.Some? && cfg.renew && cfg.rentingDays > 0 then Some(Max(l.end.value, l.issued + Days(cfg.rentingDays))) else None,
        l.end)
  }

  // ----- requests, environment, replies -----

  datatype EndParam = Absent | Malformed | Explicit(end: Time)

  datatype Op =
    | GetStatus
    | RegisterDevice(device: string, name: string)
    | ReturnLoan(device: string, name: string)
    | RenewLoan(device: string, name: string, end: EndParam)
    | ExtendLoan(end: EndParam)
    | CancelLoan(wanted: Option<Status>)     // None: the body does not decode
    | TouchContent                           // LCP: the content was updated
    | CmsPatch(partial: PartialLicense)      // LCP: a PATCH that does not come from the status server

  /** How one effect ends: done, refused without effect, or carried out while the answer is lost. */
  datatype Outcome = Done | Refused | Lost

  /** A status code that the status server takes for an error of the license server. */
  type ErrorCode = c: int | c != 200 && c != 206 witness 500

  /** How the events of a document are read: all of them, only the first ones without anybody noticing, or an error. */
  datatype Listing = Whole | Cut(n: nat) | Broken

  /** What the surroundings do during one call: whether the row, the device query and the events can be read, the readings
      of the clock in order, the fate of each effect, and the status code of a PATCH that fails (None: no answer at all). */
  datatype Env = Env(
    readOk: bool,
    queryOk: bool,
    listing: Listing,
    first: Time,
    second: Time,
    third: Time,
    log: Outcome,
    patch: Outcome,
    patchCode: Option<ErrorCode>,
    store: Outcome)

  predicate Ordered(e: Env) { e.first <= e.second <= e.third }

  predicate Faultless(e: Env) { e.readOk && e.queryOk && e.listing.Whole? && e.log.Done? && e.patch.Done? && e.store.Done? }

  datatype Reply = Error(code: int) | Document(row: Row, events: seq<Event>) | Empty

  // ----- what each handler decides -----

  /** The decision of a handler: an error, an answer without effect, or effects in a given order. */
  datatype Plan =
    | Reject(code: int)
    | Keep(row: Row)
    | Write(row: Row)
    | LogCrash(event: Event)   // the nil count is dereferenced once the event is logged
    | LogWrite(event: Event, row: Row)
    | LogPatchWrite(event: Event, end: Time, row: Row)
    | PatchLogWrite(end: Time, event: Event, row: Row)

  /** The device has at least one event, which is all that `CheckDeviceStatus(..) != ""` tells. */
  predicate KnownDevice(log: seq<Event>, device: string) {
    exists i :: 0 <= i < |log| && log[i].device == device
  }

  function GetPlan(r: Row, env: Env): (plan: Plan) {
    if r.end.Some? && Trunc(env.first) > r.end.value && (r.status.Active? || r.status.Ready?)
    then Write(r.(status := Expired, statusUpdated := Trunc(env.second)))
    else Keep(r)
  }

  function RegisterPlan(cfg: Config, r: Row, log: seq<Event>, device: string, name: string, env: Env): (plan: Plan) {
    if cfg.goofyMode then Reject(400)
    else if !r.status.Active? && !r.status.Ready? then Reject(403)
    else if !env.queryOk then Reject(500)
    else if KnownDevice(log, device) then Keep(r)
    else if r.deviceCount.None? then LogCrash(Event(r.id, Register, device, name, Trunc(env.second)))
    else LogWrite(Event(r.id, Register, device, name, Trunc(env.second)),
                  r.(status := Active, statusUpdated := Trunc(env.second), deviceCount := Some(r.deviceCount.value + 1)))
  }

  function ReturnPlan(r: Row, device: string, name: string, env: Env): (plan: Plan) {
    if |name| > 255 || |device| > 255 then Reject(400)
    else if Terminal(r.status) then Reject(403)
    else
      var t := Trunc(env.second);
      LogPatchWrite(Event(r.id, Return, device, name, t), t,
                    r.(status := if r.status.Ready? then Cancelled else Returned,
                       end := Some(t), statusUpdated := t, licenseUpdated := t, potentialEnd := None))
  }

  /** The end asked for, or the default one; None when there is neither. */
  function AskedEnd(cfg: Config, end: EndParam, from: Time): (r: Option<Time>) {
    match end
    case Explicit(t) => Some(t)
    case Malformed => None
    case Absent => if cfg.renewDays == 0 then None else Some(from + Days(cfg.renewDays))
  }

  function RenewPlan(cfg: Config, r: Row, device: string, name: string, end: EndParam, env: Env): (plan: Plan) {
    if (if r.status.Expired? then !cfg.renewExpired else !r.status.Active?) then Reject(400)
    else if r.end.None? || r.end.value == 0 then Reject(400)
    else if r.potentialEnd.None? || r.potentialEnd.value == 0 then Reject(400)
    else
      var asked := AskedEnd(cfg, end, if cfg.renewFromNow then env.first else r.end.value);
      if asked.None? then Reject(400)
      else if asked.value > r.potentialEnd.value || asked.value < r.end.value then Keep(r)
      else ExtendTo(r, asked.value, device, name, env)
  }

  function ExtendPlan(cfg: Config, r: Row, end: EndParam, env: Env): (plan: Plan) {
    if r.potentialEnd.None? then Reject(400)
    else if Terminal(r.status) then Reject(400)
    else if r.end.None? || r.end.value == 0 then Reject(403)
    else
      var asked := AskedEnd(cfg, end, r.end.value);
      if asked.None? then Reject(if end.Absent? then 500 else 400)
      else if asked.value > r.potentialEnd.value || asked.value < r.end.value then Reject(403)
      else ExtendTo(r, asked.value, "suscription", "subscription", env)
  }

  function ExtendTo(r: Row, end: Time, device: string, name: string, env: Env): (q: Plan) {
    var t := Trunc(env.second);
    LogPatchWrite(Event(r.id, Renew, device, name, t), end,
                  r.(status := Active, end := Some(end), statusUpdated := t, licenseUpdated := t))
  }

  function CancelPlan(r: Row, wanted: Option<Status>, env: Env): (plan: Plan) {
    if wanted.None? then Reject(500)
    else if !wanted.value.Revoked? && !wanted.value.Cancelled? then Reject(400)
    else if wanted.value.Cancelled? && !r.status.Ready? then Reject(400)
    else if wanted.value.Revoked? && !r.status.Ready? && !r.status.Active? then Reject(400)
    else
      var t := Trunc(env.first);
      PatchLogWrite(t, Event(r.id, if r.status.Ready? then Cancel else Revoke, "system", "system", Trunc(env.third)),
                    r.(status := if r.status.Ready? then Cancelled else Revoked,
                       end := Some(t), statusUpdated := t, licenseUpdated := t, potentialEnd := None))
  }

  /** Parameters that are checked before the row is read. */
  predicate EarlyReject(op: Op) {
    match op
    case RegisterDevice(d, n) => |d| == 0 || |d| > 255 || |n| == 0 || |n| > 255
    case RenewLoan(d, n, _) => |n| > 255 || |d| > 255
    case _ => false
  }

  predicate OnStatusServer(op: Op) { !op.TouchContent? && !op.CmsPatch? }

  function PlanOf(cfg: Config, c: Cell, op: Op, env: Env): (plan: Plan)
    requires OnStatusServer(op)
  {
    if EarlyReject(op) then Reject(400)
    else if !env.readOk then Reject(500)
    else if c.row.None? then Reject(404)
    else
      var r := Fetched(cfg, c.row.value);
      match op
      case GetStatus => GetPlan(r, env)
      case RegisterDevice(d, n) => RegisterPlan(cfg, r, c.log, d, n, env)
      case ReturnLoan(d, n) => ReturnPlan(r, d, n, env)
      case RenewLoan(d, n, e) => RenewPlan(cfg, r, d, n, e, env)
      case ExtendLoan(e) => ExtendPlan(cfg, r, e, env)
      case CancelLoan(w) => CancelPlan(r, w, env)
  }

  // ----- carrying a plan out -----

  /** A cell in the middle of a handler, and the status code of the first effect that reported an error. */
  datatype Progress = Progress(cell: Cell, error: Option<int>)

  function LogStep(p: Progress, e: Event, o: Outcome): (q: Progress) {
    if p.error.Some? then p
    else Progress(if o.Refused? then p.cell else p.cell.(log := p.cell.log + [e]), if o.Done? then None else Some(500))
  }

  /** The code with which a handler passes a failed PATCH on. */
  function PatchError(env: Env): (code: int) { if env.patchCode.Some? then env.patchCode.value else 500 }

  /** A PATCH sent over to the license server, which stamps it with its own reading of the clock. */
  function PatchStep(cfg: Config, p: Progress, end: Time, now: Time, env: Env): (q: Progress) {
    if p.error.Some? then p
    else if !cfg.lcpUrlSet then p.(error := Some(500))
    else if p.cell.license.None? then p.(error := Some(if env.patch.Done? then 404 else PatchError(env)))
    else if env.patch.Refused? then p.(error := Some(PatchError(env)))
    else
      Progress(p.cell.(license := Merge(p.cell.license.value, EndOnly(end), now)),
               if env.patch.Done? then None else Some(PatchError(env)))
  }

  function StoreStep(p: Progress, r: Row, o: Outcome): (q: Progress) {
    if p.error.Some? then p
    else Progress(if o.Refused? then p.cell else p.cell.(row := Some(Stored(r))), if o.Done? then None else Some(500))
  }

  function Perform(cfg: Config, c: Cell, plan: Plan, env: Env): (q: Progress) {
    var p := Progress(c, None);
    match plan
    case Reject(code) => Progress(c, Some(code))
    case Keep(_) => p
    case Write(r) => StoreStep(p, r, env.store)
    case LogCrash(e) => LogStep(p, e, env.log).(error := Some(500))
    case LogWrite(e, r) => StoreStep(LogStep(p, e, env.log), r, env.store)
    case LogPatchWrite(e, end, r) =>
      StoreStep(PatchStep(cfg, LogStep(p, e, env.log), end, env.third, env), r, env.store)
    case PatchLogWrite(end, e, r) =>
      StoreStep(LogStep(PatchStep(cfg, p, end, env.second, env), e, env.log), r, env.store)
  }

  /** The document of a row, with the events as far as they can be read. */
  function Listed(r: Row, log: seq<Event>, listing: Listing): (reply: Reply) {
    match listing
    case Whole => Document(r, log)
    case Cut(n) => Document(r, if n < |log| then log[..n] else log)
    case Broken => Error(500)
  }

  function AnswerOf(plan: Plan, p: Progress, env: Env): (reply: Reply) {
    if p.error.Some? then Error(p.error.value)
    else
      match plan
      case Reject(code) => Error(code)
      case LogCrash(_) => Error(500)
      case PatchLogWrite(_, _, _) => Empty
      case _ => Listed(plan.row, p.cell.log, env.listing)
  }

  /** One call, on whichever server it arrives. */
  function Next(cfg: Config, c: Cell, op: Op, env: Env): (r: Cell) {
    match op
    case TouchContent =>
      if c.license.None? || env.store.Refused? then c
      else c.(license := Some(c.license.value.(updated := Some(Trunc(env.first)))))
    case CmsPatch(partial) =>
      if c.license.None? || env.store.Refused? || Merge(c.license.value, partial, env.first).None? then c
      else c.(license := Merge(c.license.value, partial, env.first))
    case _ => Perform(cfg, c, PlanOf(cfg, c, op, env), env).cell
  }

  function ReplyTo(cfg: Config, c: Cell, op: Op, env: Env): (r: Reply)
    requires OnStatusServer(op)
  {
    var plan := PlanOf(cfg, c, op, env);
    AnswerOf(plan, Perform(cfg, c, plan, env), env)
  }

  // ----- links of a status document -----

  datatype Rel = SelfRel | LicenseRel | RegisterRel | ReturnRel | RenewRel

  predicate Usable(s: Status) { s.Ready? || s.Active? }

  predicate HasRealEnd(r: Row) { r.end.Some? && r.end.value != 0 }

  function Links(cfg: Config, r: Row): (q: seq<Rel>) {
    [SelfRel, LicenseRel]
    + (if cfg.register && Usable(r.status) then [RegisterRel] else [])
    + (if cfg.giveBack && HasRealEnd(r) && Usable(r.status) then [ReturnRel] else [])
    + (if cfg.renew && HasRealEnd(r) && (Usable(r.status) || (cfg.renewExpired && r.status.Expired?)) then [RenewRel] else [])
  }

  // ----- runs -----

  datatype Call = Call(op: Op, env: Env)

  /** The clock never goes back, within a call or between calls. */
  predicate Timely(clock: Time, calls: seq<Call>)
    decreases |calls|
  {
    calls == [] || (clock <= calls[0].env.first && Ordered(calls[0].env) && Timely(calls[0].env.third, calls[1..]))
  }

  function ClockAfter(clock: Time, calls: seq<Call>): (r: Time) {
    if calls == [] then clock else calls[|calls| - 1].env.third
  }

  function Run(cfg: Config, c: Cell, calls: seq<Call>): (r: Cell)
    decreases |calls|
  {
    if calls == [] then c else Run(cfg, Next(cfg, c, calls[0].op, calls[0].env), calls[1..])
  }

  /** A license issued and just announced, its content touched in between or not: the clock has reached the first second. */
  ghost predicate Born(cfg: Config, c: Cell, l: License, clock: Time) {
    && SECOND <= l.issued <= Trunc(clock)
    && (l.updated.Some? ==> l.updated.value <= Trunc(clock))
    && exists id: nat, now :: l.issued <= now <= clock && c == Cell(Some(Stored(NewRow(cfg, l, id, now))), [], Some(l))
  }
}
