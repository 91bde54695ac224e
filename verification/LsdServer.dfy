/**
 The two servers over their tables, written the way the Go handlers are: fetch the row, overwrite its
 fields, add the event, call the license server, write the row back. Every handler is proved to do to
 its own license what `LsdProtocol.Next` says, and nothing to any other license.
 */
module LsdServer {
  import opened Options
  import opened LsdProtocol
  import opened LsdInvariants

  // ----- event table (transactions) -----

  /** The events of one status row, in insertion order. */
  function EventsOf(events: seq<Event>, rowId: nat): (r: seq<Event>) {
    if events == [] then []
    else
      var last := events[|events| - 1];
      var init := EventsOf(events[..|events| - 1], rowId);
      if last.rowId == rowId then init + [last] else init
  }

  lemma EventsOfAppend(events: seq<Event>, e: Event, rowId: nat)
    ensures EventsOf(events + [e], rowId) == if e.rowId == rowId then EventsOf(events, rowId) + [e] else EventsOf(events, rowId)
  {
    assert (events + [e])[..|events|] == events;
  }

  lemma KnownDeviceAppend(log: seq<Event>, e: Event, device: string)
    ensures KnownDevice(log + [e], device) <==> KnownDevice(log, device) || e.device == device
  {
    assert forall i :: 0 <= i < |log| ==> (log + [e])[i] == log[i];
    assert (log + [e])[|log|] == e;
  }

  class EventTable {
    var events: seq<Event>

    constructor ()
      ensures events == []
    {
      events := [];
    }

    method Add(e: Event, outcome: Outcome) returns (ok: bool)
      modifies this
      ensures events == if outcome.Refused? then old(events) else old(events) + [e]
      ensures ok <==> outcome.Done?
    {
      if !outcome.Refused? {
        events := events + [e];
      }
      ok := outcome.Done?;
    }

    /** The kind of a latest event of the device; None when the device is unknown to this license. */
    method CheckDeviceStatus(rowId: nat, device: string, queryOk: bool) returns (kind: Option<EventKind>, err: bool)
      ensures err <==> !queryOk
      ensures !err ==> (kind.Some? <==> KnownDevice(EventsOf(events, rowId), device))
      ensures kind.Some? ==> exists i :: IsLatest(events, i, rowId, device) && events[i].kind == kind.value
    {
      kind, err := None, !queryOk;
      if err {
        return;
      }
      var best := 0;
      for n := 0 to |events|
        invariant kind.Some? <==> KnownDevice(EventsOf(events[..n], rowId), device)
        invariant kind.Some? ==> best < n && IsLatest(events[..n], best, rowId, device) && events[best].kind == kind.value
        invariant kind.None? ==> forall j :: 0 <= j < n ==> !Concerns(events[j], rowId, device)
      {
        assert events[..n + 1] == events[..n] + [events[n]];
        EventsOfAppend(events[..n], events[n], rowId);
        KnownDeviceAppend(EventsOf(events[..n], rowId), events[n], device);
        if Concerns(events[n], rowId, device) && (kind.None? || events[best].time <= events[n].time) {
          best := n;
          kind := Some(events[n].kind);
        }
      }
      assert events[..|events|] == events;
    }

    /** The devices of the register events, up to the first row that cannot be read: the caller takes that for the end. */
    method ListRegisteredDevices(rowId: nat, readable: nat) returns (devices: seq<Device>)
      ensures
        var all := DevicesOf(EventsOf(events, rowId));
        devices == if readable < |all| then all[..readable] else all
    {
      devices := [];
      ghost var all := [];
      for n := 0 to |events|
        invariant all == DevicesOf(EventsOf(events[..n], rowId))
        invariant devices == if readable < |all| then all[..readable] else all
      {
        assert events[..n + 1] == events[..n] + [events[n]];
        EventsOfAppend(events[..n], events[n], rowId);
        var e := events[n];
        if e.rowId == rowId {
          DevicesOfAppend(EventsOf(events[..n], rowId), e);
          if e.kind.Register? {
            all := all + [Device(e.device, e.name, e.time)];
            if |devices| < readable {
              devices := devices + [Device(e.device, e.name, e.time)];
            }
          }
        }
      }
      assert events[..|events|] == events;
    }

    /** The document of a row with the events read for it. */
    method GetByLicenseStatusId(row: Row, listing: Listing) returns (reply: Reply)
      ensures reply == Listed(row, EventsOf(events, row.id), listing)
    {
      var log: seq<Event> := [];
      for n := 0 to |events|
        invariant log == EventsOf(events[..n], row.id)
      {
        assert events[..n + 1] == events[..n] + [events[n]];
        EventsOfAppend(events[..n], events[n], row.id);
        if events[n].rowId == row.id {
          log := log + [events[n]];
        }
      }
      assert events[..|events|] == events;
      if listing.Broken? {
        return Error(500);
      }
      if listing.Cut? && listing.n < |log| {
        log := log[..listing.n];
      }
      reply := Document(row, log);
    }
  }

  datatype Device = Device(id: string, name: string, time: Time)

  function DevicesOf(log: seq<Event>): (devices: seq<Device>) {
    if log == [] then []
    else
      var init, e := DevicesOf(log[..|log| - 1]), log[|log| - 1];
      if e.kind.Register? then init + [Device(e.device, e.name, e.time)] else init
  }

  lemma DevicesOfAppend(log: seq<Event>, e: Event)
    ensures DevicesOf(log + [e]) == if e.kind.Register? then DevicesOf(log) + [Device(e.device, e.name, e.time)] else DevicesOf(log)
  {
    assert (log + [e])[..|log|] == log;
  }

  predicate IsRegistration(e: Event, d: Device) { e.kind == Register && d.id == e.device && d.name == e.name && d.time == e.time }

  /** The listed devices are those whose registration is counted, one by one. */
  lemma {:induction false} ListedAreRegistered(log: seq<Event>)
    ensures |DevicesOf(log)| == |Registered(log)|
    ensures forall i :: 0 <= i < |DevicesOf(log)| ==> DevicesOf(log)[i].id == Registered(log)[i]
    ensures forall i :: 0 <= i < |DevicesOf(log)| ==> exists j :: 0 <= j < |log| && IsRegistration(log[j], DevicesOf(log)[i])
  {
    if log != [] {
      var init := log[..|log| - 1];
      ListedAreRegistered(init);
      forall i | 0 <= i < |DevicesOf(log)| ensures exists j :: 0 <= j < |log| && IsRegistration(log[j], DevicesOf(log)[i]) {
        if i < |DevicesOf(init)| {
          var j :| 0 <= j < |init| && IsRegistration(init[j], DevicesOf(init)[i]);
          assert IsRegistration(log[j], DevicesOf(log)[i]);
        } else {
          assert IsRegistration(log[|log| - 1], DevicesOf(log)[i]);
        }
      }
    }
  }

  predicate IsLatest(events: seq<Event>, i: int, rowId: nat, device: string) {
    && 0 <= i < |events|
    && Concerns(events[i], rowId, device)
    && forall j :: 0 <= j < |events| && Concerns(events[j], rowId, device) ==> events[j].time <= events[i].time
  }

  predicate Concerns(e: Event, rowId: nat, device: string) { e.rowId == rowId && e.device == device }

  // ----- status table (license_statuses) -----

  datatype Entry = Entry(licenseRef: string, row: Row)

  /** The row the database finds first for a license id. */
  function First(rows: seq<Entry>, ref: string): (r: Option<Row>)
    ensures r.Some? ==> exists i :: 0 <= i < |rows| && rows[i] == Entry(ref, r.value)
  {
    if rows == [] then None
    else if First(rows[..|rows| - 1], ref).Some? then First(rows[..|rows| - 1], ref)
    else if rows[|rows| - 1].licenseRef == ref then Some(rows[|rows| - 1].row)
    else None
  }

  predicate IdsAreIndices(rows: seq<Entry>) { forall i :: 0 <= i < |rows| ==> rows[i].row.id == i }

  /** The foreign key of the event table. */
  predicate EventsHaveRows(events: seq<Event>, n: nat) { forall i :: 0 <= i < |events| ==> events[i].rowId < n }

  lemma FirstAppend(rows: seq<Entry>, e: Entry, ref: string)
    ensures First(rows + [e], ref) ==
            if First(rows, ref).Some? then First(rows, ref) else if e.licenseRef == ref then Some(e.row) else None
  {
    assert (rows + [e])[..|rows|] == rows;
  }

  /** Updating a first row is seen by its own license only. */
  lemma {:induction false} FirstUpdate(rows: seq<Entry>, ref: string, r: Row, other: string)
    requires IdsAreIndices(rows) && First(rows, ref).Some? && r.id == First(rows, ref).value.id
    ensures r.id < |rows| && rows[r.id].licenseRef == ref
    ensures First(rows[r.id := Entry(ref, r)], other) == if other == ref then Some(r) else First(rows, other)
  {
    var init := rows[..|rows| - 1];
    if First(init, ref).Some? {
      FirstUpdate(init, ref, r, other);
      assert rows[r.id := Entry(ref, r)] == init[r.id := Entry(ref, r)] + [rows[|rows| - 1]];
      FirstAppend(init[r.id := Entry(ref, r)], rows[|rows| - 1], other);
    } else {
      assert rows[r.id := Entry(ref, r)] == init + [Entry(ref, r)];
      FirstAppend(init, Entry(ref, r), other);
    }
    assert rows == init + [rows[|rows| - 1]];
    FirstAppend(init, rows[|rows| - 1], other);
  }

  lemma FirstIds(rows: seq<Entry>, ref: string, other: string)
    requires IdsAreIndices(rows) && First(rows, ref).Some? && First(rows, other).Some?
    ensures First(rows, ref).value.id == First(rows, other).value.id <==> ref == other
  {
  }

  /** No such row is one error, a row that cannot be read another. */
  datatype Fetch = Found(row: Row) | Missing | Unreadable

  lemma EventSeenByOne(rows: seq<Entry>, events: seq<Event>, e: Event, ref: string, other: string)
    requires IdsAreIndices(rows) && First(rows, ref).Some? && First(rows, other).Some? && e.rowId == First(rows, ref).value.id
    ensures e.rowId < |rows| && (EventsHaveRows(events, |rows|) ==> EventsHaveRows(events + [e], |rows|))
    ensures EventsOf(events + [e], First(rows, other).value.id)
            == EventsOf(events, First(rows, other).value.id) + if other == ref then [e] else []
  {
    EventsOfAppend(events, e, First(rows, other).value.id);
    FirstIds(rows, ref, other);
  }

  class StatusTable {
    var rows: seq<Entry>

    constructor ()
      ensures rows == []
    {
      rows := [];
    }

    method GetByLicenseID(cfg: Config, ref: string, readOk: bool) returns (found: Fetch)
      ensures found == if !readOk then Unreadable
                       else match First(rows, ref) case None => Missing case Some(r) => Found(Fetched(cfg, r))
    {
      if !readOk {
        return Unreadable;
      }
      var row: Option<Row> := None;
      var i := 0;
      while i < |rows| && row.None?
        invariant 0 <= i <= |rows|
        invariant row == First(rows[..i], ref)
        invariant row.Some? ==> First(rows, ref) == row
      {
        assert rows[..i + 1] == rows[..i] + [rows[i]];
        FirstAppend(rows[..i], rows[i], ref);
        if rows[i].licenseRef == ref {
          row := Some(rows[i].row);
          FirstOfPrefix(rows, i + 1, ref);
        }
        i := i + 1;
      }
      assert row.None? ==> rows[..i] == rows;
      if row.None? {
        return Missing;
      }
      // an unset potential end, then the certificate fix
      var r := row.value;
      if r.potentialEnd.Some? && r.potentialEnd.value == 0 {
        r := r.(potentialEnd := None);
      }
      if cfg.cert.At? && r.licenseUpdated < cfg.cert.date {
        r := r.(licenseUpdated := cfg.cert.date);
      }
      found := Found(r);
    }

    /** Inserts a row; the database numbers it. */
    method Add(ref: string, row: Row, outcome: Outcome) returns (ok: bool)
      modifies this
      ensures ok <==> outcome.Done?
      ensures rows == if outcome.Refused? then old(rows) else old(rows) + [Entry(ref, Stored(row.(id := |old(rows)|)))]
    {
      var end := row.potentialEnd;
      if end == Some(0) {
        end := None;
      }
      if !outcome.Refused? {
        rows := rows + [Entry(ref, row.(id := |rows|, potentialEnd := end))];
      }
      ok := outcome.Done?;
    }

    /** UPDATE .. WHERE id = row.id */
    method Update(row: Row, outcome: Outcome) returns (ok: bool)
      modifies this
      ensures ok <==> outcome.Done? && row.id < |old(rows)|
      ensures rows == if outcome.Refused? || row.id >= |old(rows)| then old(rows)
                      else old(rows)[row.id := Entry(old(rows)[row.id].licenseRef, Stored(row))]
    {
      if outcome.Refused? || row.id >= |rows| {
        return false;
      }
      rows := rows[row.id := Entry(rows[row.id].licenseRef, Stored(row))];
      ok := outcome.Done?;
    }
  }

  lemma {:induction false} FirstOfPrefix(rows: seq<Entry>, n: nat, ref: string)
    requires n <= |rows| && First(rows[..n], ref).Some?
    ensures First(rows, ref) == First(rows[..n], ref)
  {
    if n == |rows| {
      assert rows[..n] == rows;
    } else {
      assert rows[..|rows| - 1][..n] == rows[..n];
      FirstOfPrefix(rows[..|rows| - 1], n, ref);
    }
  }

  // ----- license server -----

  /** The answer of the license server, unless something goes wrong. */
  function Answer(code: int, outcome: Outcome, fault: Option<ErrorCode>): (answer: Option<int>) {
    if outcome.Done? then Some(code) else if fault.Some? then Some(fault.value) else None
  }

  class LicenseServer {
    var licenses: map<string, License>

    constructor ()
      ensures licenses == map[]
    {
      licenses := map[];
    }

    function Get(id: string): (r: Option<License>)
      reads this
    {
      if id in licenses then Some(licenses[id]) else None
    }

    /** PATCH /licenses/{id}: overwrites the fetched license field by field, then writes it back. The answer is a status code;
        None when there is none, as after the crash on missing rights. `fault` is the answer when something else goes wrong. */
    method UpdateLicense(id: string, partial: PartialLicense, now: Time, outcome: Outcome, fault: Option<ErrorCode>) returns (answer: Option<int>)
      modifies this
      ensures forall other :: other != id ==> Get(other) == old(Get(other))
      ensures old(Get(id)).None? ==> Get(id).None? && answer == Answer(404, outcome, fault)
      ensures old(Get(id)).Some? ==>
                var merged := Merge(old(Get(id)).value, partial, now);
                && Get(id) == (if outcome.Refused? || merged.None? then old(Get(id)) else merged)
                && answer == (if outcome.Refused? then fault else if merged.None? then None else Answer(200, outcome, fault))
    {
      if id !in licenses {
        return Answer(404, outcome, fault);
      }
      if outcome.Refused? {
        return fault;
      }
      var merged := Overwrite(licenses[id], partial, now);
      if merged.None? {
        return None;
      }
      licenses := licenses[id := merged.value];
      answer := Answer(200, outcome, fault);
    }

    /** The fetched license, overwritten by what the request contains. */
    static method Overwrite(fetched: License, partial: PartialLicense, now: Time) returns (merged: Option<License>)
      ensures merged == Merge(fetched, partial, now)
    {
      var user, provider, content := fetched.user, fetched.provider, fetched.content;
      if partial.user != "" { user := partial.user; }
      if partial.provider != "" { provider := partial.provider; }
      if partial.content != "" { content := partial.content; }
      if partial.rights.None? {
        return None;
      }
      var r := partial.rights.value;
      var prints, copies, start, end := fetched.prints, fetched.copies, fetched.start, fetched.end;
      if r.prints.Some? { prints := if r.prints.value >= 0 then r.prints else None; }
      if r.copies.Some? { copies := if r.copies.value >= 0 then r.copies else None; }
      if r.start.Some? { start := if r.start.value != 0 then r.start else None; }
      if r.end.Some? { end := if r.end.value != 0 then r.end else None; }
      merged := Some(License(user, provider, content, fetched.issued, Some(Trunc(now)), prints, copies, start, end));
    }

    /** Marks every license of an updated content as updated now. */
    method TouchByContentID(content: string, cfg: Config, env: Env)
      modifies this
      ensures forall id ::
                Get(id) == if old(Get(id)).Some? && old(Get(id)).value.content == content
                           then Next(cfg, Cell(None, [], old(Get(id))), TouchContent, env).license
                           else old(Get(id))
    {
      if !env.store.Refused? {
        licenses := map id | id in licenses ::
          if licenses[id].content == content then licenses[id].(updated := Some(Trunc(env.first))) else licenses[id];
      }
    }
  }

  // ----- status server -----

  class StatusServer {
    const cfg: Config
    const events: EventTable
    const statuses: StatusTable
    const lcp: LicenseServer

    constructor (cfg: Config, events: EventTable, statuses: StatusTable, lcp: LicenseServer)
      ensures this.cfg == cfg && this.events == events && this.statuses == statuses && this.lcp == lcp
    {
      this.cfg, this.events, this.statuses, this.lcp := cfg, events, statuses, lcp;
    }

    ghost predicate Valid()
      reads statuses, events
    {
      IdsAreIndices(statuses.rows) && EventsHaveRows(events.events, |statuses.rows|)
    }

    /** What the two servers hold about one license. */
    ghost function View(ref: string): (r: Cell)
      reads events, statuses, lcp
    {
      var row := First(statuses.rows, ref);
      Cell(row, if row.Some? then EventsOf(events.events, row.value.id) else [], lcp.Get(ref))
    }

    /** The license server announces a license (None: the body does not decode); a second announcement leaves the first row
        in charge. */
    method CreateLicenseStatusDocument(ref: string, body: Option<License>, now: Time, outcome: Outcome) returns (code: int)
      requires Valid()
      modifies statuses
      ensures Valid()
      ensures code == if body.None? then 400 else if outcome.Done? then 201 else 500
      ensures old(View(ref)).row.Some? || body.None? || outcome.Refused? ==> View(ref) == old(View(ref))
      ensures old(View(ref)).row.None? && body.Some? && !outcome.Refused? ==>
                exists id: nat :: View(ref) == Cell(Some(Stored(NewRow(cfg, body.value, id, now))), [], old(View(ref)).license)
      ensures forall other :: other != ref ==> View(other) == old(View(other))
    {
      if body.None? {
        return 400;
      }
      var row := MakeLicenseStatus(body.value, now);
      ghost var before := statuses.rows;
      var ok := statuses.Add(ref, row, outcome);
      ghost var id := |before|;
      if !outcome.Refused? {
        forall other ensures First(statuses.rows, other) ==
            if First(before, other).Some? then First(before, other) else if other == ref then Some(Stored(row.(id := id))) else None
        {
          FirstAppend(before, statuses.rows[id], other);
        }
        NoEventsYet(events.events, id);
        assert Stored(row.(id := id)) == Stored(NewRow(cfg, body.value, id, now));
      }
      code := if ok then 201 else 500;
    }

    method MakeLicenseStatus(l: License, now: Time) returns (row: Row)
      ensures forall id: nat :: row.(id := id) == NewRow(cfg, l, id, now)
    {
      var end: Option<Time> := None;
      var potential: Option<Time> := None;
      if l.end.Some? {
        end := l.end;
        if cfg.renew && cfg.rentingDays > 0 {
          var endFromConfig := l.issued + Days(cfg.rentingDays);
          if l.end.value > endFromConfig {
            potential := l.end;
          } else {
            potential := Some(endFromConfig);
          }
        }
      }
      row := Row(0, if cfg.register then Ready else Active, l.issued, Trunc(now), Some(0), potential, end);
    }

    // One effect each, on the license they concern and on no other.

    method AddEvent(ghost ref: string, e: Event, outcome: Outcome) returns (ok: bool)
      requires Valid() && View(ref).row.Some? && e.rowId == View(ref).row.value.id
      modifies events
      ensures Valid()
      ensures Progress(View(ref), if ok then None else Some(500)) == LogStep(Progress(old(View(ref)), None), e, outcome)
      ensures forall other :: other != ref ==> View(other) == old(View(other))
    {
      hide EventsOf, First, IdsAreIndices, EventsHaveRows;
      ghost var before := events.events;
      ok := events.Add(e, outcome);
      forall other | First(statuses.rows, other).Some?
        ensures EventsOf(before + [e], First(statuses.rows, other).value.id)
                == EventsOf(before, First(statuses.rows, other).value.id) + if other == ref then [e] else []
      {
        EventSeenByOne(statuses.rows, before, e, ref, other);
      }
      EventSeenByOne(statuses.rows, before, e, ref, ref);
    }

    /** updateLicense: PATCHes the license server; answers its status code, or an error of the connection. */
    method UpdateLicense(end: Time, ref: string, now: Time, env: Env) returns (code: int, err: bool)
      requires Valid()
      modifies lcp
      ensures Valid()
      ensures Progress(View(ref), FaultOf(code, err)) == PatchStep(cfg, Progress(old(View(ref)), None), end, now, env)
      ensures forall other :: other != ref ==> View(other) == old(View(other))
    {
      if !cfg.lcpUrlSet {
        return 0, true;
      }
      var answer := lcp.UpdateLicense(ref, EndOnly(end), now, env.patch, env.patchCode);
      code, err := if answer.Some? then answer.value else 0, answer.None?;
    }

    /** What the handlers make of the answer: a connection error is their own, any other code is passed on. */
    static function FaultOf(code: int, err: bool): (fault: Option<int>) {
      if err then Some(500) else if code != 200 && code != 206 then Some(code) else None
    }

    method StoreRow(ghost ref: string, row: Row, outcome: Outcome) returns (ok: bool)
      requires Valid() && View(ref).row.Some? && row.id == View(ref).row.value.id
      modifies statuses
      ensures Valid()
      ensures Progress(View(ref), if ok then None else Some(500)) == StoreStep(Progress(old(View(ref)), None), row, outcome)
      ensures forall other :: other != ref ==> View(other) == old(View(other))
    {
      hide EventsOf, First;
      ghost var before := statuses.rows;
      forall other
        ensures row.id < |before| && before[row.id].licenseRef == ref
        ensures First(before[row.id := Entry(ref, Stored(row))], other) == if other == ref then Some(Stored(row)) else First(before, other)
      {
        FirstUpdate(before, ref, Stored(row), other);
      }
      ok := statuses.Update(row, outcome);
    }

    /** The end asked for or, by default, some days after `from`; None when neither is available. */
    method SuggestedEnd(end: EndParam, from: Time) returns (asked: Option<Time>)
      ensures asked == AskedEnd(cfg, end, from)
    {
      match end {
        case Absent =>
          if cfg.renewDays == 0 {
            return None;
          }
          asked := Some(from + Days(cfg.renewDays));
        case Malformed => asked := None;
        case Explicit(t) => asked := Some(t);
      }
    }

    /** Log the event, PATCH the license server, store the row; the first error ends it. */
    method CarryOut(ref: string, event: Event, end: Time, row: Row, env: Env) returns (fault: Option<int>)
      requires Valid() && View(ref).row.Some? && event.rowId == row.id == View(ref).row.value.id
      modifies statuses, events, lcp
      ensures Valid()
      ensures Progress(View(ref), fault) == Perform(cfg, old(View(ref)), LogPatchWrite(event, end, row), env)
      ensures forall other :: other != ref ==> View(other) == old(View(other))
    {
      hide EventsOf, First, IdsAreIndices, EventsHaveRows;
      var ok := AddEvent(ref, event, env.log);
      if !ok {
        return Some(500);
      }
      var code, err := UpdateLicense(end, ref, env.third, env);
      if FaultOf(code, err).Some? {
        return FaultOf(code, err);
      }
      ok := StoreRow(ref, row, env.store);
      fault := if ok then None else Some(500);
    }

    // The handlers.

    method GetLicenseStatusDocument(ref: string, env: Env) returns (reply: Reply)
      requires Valid()
      modifies statuses
      ensures Valid()
      ensures View(ref) == Next(cfg, old(View(ref)), GetStatus, env)
      ensures reply == ReplyTo(cfg, old(View(ref)), GetStatus, env)
      ensures forall other :: other != ref ==> View(other) == old(View(other))
    {
      hide EventsOf, First, IdsAreIndices, EventsHaveRows;
      var found := statuses.GetByLicenseID(cfg, ref, env.readOk);
      if !found.Found? {
        return Error(if found.Missing? then 404 else 500);
      }
      var row := found.row;
      if row.end.Some? {
        var diff := Trunc(env.first) - row.end.value;
        if diff > 0 && (row.status.Active? || row.status.Ready?) {
          row := row.(status := Expired);
          row := row.(statusUpdated := Trunc(env.second));
          var ok := StoreRow(ref, row, env.store);
          if !ok {
            return Error(500);
          }
        }
      }
      reply := FillLicenseStatus(ref, row, env.listing);
    }

    /** Adds the events of the log to the document. */
    method FillLicenseStatus(ghost ref: string, row: Row, listing: Listing) returns (reply: Reply)
      requires View(ref).row.Some? && row.id == View(ref).row.value.id
      ensures reply == Listed(row, View(ref).log, listing)
    {
      reply := events.GetByLicenseStatusId(row, listing);
    }

    /** One more device for a ready or active license. */
    method AddDevice(ref: string, fetched: Row, device: string, name: string, env: Env) returns (row: Row, ok: bool)
      requires Valid() && View(ref).row.Some? && fetched.id == View(ref).row.value.id
      requires !cfg.goofyMode && env.queryOk && Usable(fetched.status) && !KnownDevice(View(ref).log, device)
      modifies statuses, events
      ensures Valid()
      ensures Progress(View(ref), if ok then None else Some(500)) == Perform(cfg, old(View(ref)), RegisterPlan(cfg, fetched, old(View(ref)).log, device, name, env), env)
      ensures ok ==> RegisterPlan(cfg, fetched, old(View(ref)).log, device, name, env).LogWrite?
      ensures ok ==> row == RegisterPlan(cfg, fetched, old(View(ref)).log, device, name, env).row
      ensures forall other :: other != ref ==> View(other) == old(View(other))
    {
      hide EventsOf, First, IdsAreIndices, EventsHaveRows;
      row := fetched;
      var event := Event(row.id, Register, device, name, Trunc(env.second));
      ok := AddEvent(ref, event, env.log);
      if !ok || row.deviceCount.None? {
        return row, false;
      }
      row := row.(statusUpdated := event.time);
      if row.status.Ready? {
        row := row.(status := Active);
      }
      row := row.(deviceCount := Some(row.deviceCount.value + 1));
      ok := StoreRow(ref, row, env.store);
    }

    method RegisterDevice(ref: string, device: string, name: string, env: Env) returns (reply: Reply)
      requires Valid()
      modifies statuses, events
      ensures Valid()
      ensures View(ref) == Next(cfg, old(View(ref)), LsdProtocol.Op.RegisterDevice(device, name), env)
      ensures reply == ReplyTo(cfg, old(View(ref)), LsdProtocol.Op.RegisterDevice(device, name), env)
      ensures forall other :: other != ref ==> View(other) == old(View(other))
    {
      hide EventsOf, First, IdsAreIndices, EventsHaveRows;
      if |device| == 0 || |device| > 255 || |name| == 0 || |name| > 255 {
        return Error(400);
      }
      var found := statuses.GetByLicenseID(cfg, ref, env.readOk);
      if !found.Found? {
        return Error(if found.Missing? then 404 else 500);
      }
      var row := found.row;
      ghost var c, op := View(ref), LsdProtocol.Op.RegisterDevice(device, name);
      assert PlanOf(cfg, c, op, env) == RegisterPlan(cfg, row, c.log, device, name, env);
      if cfg.goofyMode {
        return Error(400);
      }
      if !row.status.Active? && !row.status.Ready? {
        return Error(403);
      }
      var deviceStatus, err := events.CheckDeviceStatus(row.id, device, env.queryOk);
      if err {
        return Error(500);
      }
      if deviceStatus.None? {
        var ok: bool;
        row, ok := AddDevice(ref, row, device, name, env);
        if !ok {
          return Error(500);
        }
      }
      reply := FillLicenseStatus(ref, row, env.listing);
    }

    method LendingReturn(ref: string, device: string, name: string, env: Env) returns (reply: Reply)
      requires Valid()
      modifies statuses, events, lcp
      ensures Valid()
      ensures View(ref) == Next(cfg, old(View(ref)), ReturnLoan(device, name), env)
      ensures reply == ReplyTo(cfg, old(View(ref)), ReturnLoan(device, name), env)
      ensures forall other :: other != ref ==> View(other) == old(View(other))
    {
      hide EventsOf, First, IdsAreIndices, EventsHaveRows;
      var found := statuses.GetByLicenseID(cfg, ref, env.readOk);
      if !found.Found? {
        return Error(if found.Missing? then 404 else 500);
      }
      var row := found.row;
      if |name| > 255 || |device| > 255 {
        return Error(400);
      }
      match row.status {
        case Ready => row := row.(status := Cancelled);
        case Active => row := row.(status := Returned);
        case Expired => row := row.(status := Returned);
        case _ => return Error(403);
      }
      var event := Event(row.id, Return, device, name, Trunc(env.second));
      row := row.(end := Some(event.time));
      row := row.(statusUpdated := event.time);
      row := row.(licenseUpdated := event.time);
      row := row.(potentialEnd := None);
      var fault := CarryOut(ref, event, event.time, row, env);
      if fault.Some? {
        return Error(fault.value);
      }
      reply := FillLicenseStatus(ref, row, env.listing);
    }

    method LendingRenewal(ref: string, device: string, name: string, end: EndParam, env: Env) returns (reply: Reply)
      requires Valid()
      modifies statuses, events, lcp
      ensures Valid()
      ensures View(ref) == Next(cfg, old(View(ref)), RenewLoan(device, name, end), env)
      ensures reply == ReplyTo(cfg, old(View(ref)), RenewLoan(device, name, end), env)
      ensures forall other :: other != ref ==> View(other) == old(View(other))
    {
      hide EventsOf, First, IdsAreIndices, EventsHaveRows;
      if |name| > 255 || |device| > 255 {
        return Error(400);
      }
      var found := statuses.GetByLicenseID(cfg, ref, env.readOk);
      if !found.Found? {
        return Error(if found.Missing? then 404 else 500);
      }
      var row := found.row;
      assert PlanOf(cfg, View(ref), RenewLoan(device, name, end), env) == RenewPlan(cfg, row, device, name, end, env);
      if row.status.Expired? {
        if !cfg.renewExpired {
          return Error(400);
        }
      } else if !row.status.Active? {
        return Error(400);
      }
      if row.end.None? || row.end.value == 0 {
        return Error(400);
      }
      var currentEnd := row.end.value;
      if row.potentialEnd.None? || row.potentialEnd.value == 0 {
        return Error(400);
      }
      var asked := SuggestedEnd(end, if cfg.renewFromNow then env.first else currentEnd);
      if asked.None? {
        return Error(400);
      }
      var suggestedEnd := asked.value;
      var noRenew := false;
      if suggestedEnd > row.potentialEnd.value {
        noRenew := true;
      }
      if suggestedEnd < currentEnd {
        noRenew := true;
      }
      if !noRenew {
        var event := Event(row.id, Renew, device, name, Trunc(env.second));
        row := row.(status := Active);
        row := row.(end := Some(suggestedEnd));
        row := row.(statusUpdated := event.time);
        row := row.(licenseUpdated := event.time);
        var fault := CarryOut(ref, event, suggestedEnd, row, env);
        if fault.Some? {
          return Error(fault.value);
        }
      }
      reply := FillLicenseStatus(ref, row, env.listing);
    }

    /** The end of an extension, or the code of a refusal. */
    method ExtensionEnd(row: Row, end: EndParam, ghost env: Env) returns (suggested: Option<Time>, code: int)
      ensures ExtendPlan(cfg, row, end, env) ==
              if suggested.None? then Reject(code) else ExtendTo(row, suggested.value, "suscription", "subscription", env)
    {
      suggested, code := None, 400;
      if row.potentialEnd.None? {
        return;
      }
      if row.status.Revoked? || row.status.Cancelled? || row.status.Returned? {
        return;
      }
      if row.end.None? || row.end.value == 0 {
        return None, 403;
      }
      var currentEnd := row.end.value;
      var asked := SuggestedEnd(end, currentEnd);
      if asked.None? {
        return None, if end.Absent? then 500 else 400;
      }
      if asked.value > row.potentialEnd.value {
        return None, 403;
      }
      if asked.value < currentEnd {
        return None, 403;
      }
      suggested := asked;
    }

    method ExtendSubscription(ref: string, end: EndParam, env: Env) returns (reply: Reply)
      requires Valid()
      modifies statuses, events, lcp
      ensures Valid()
      ensures View(ref) == Next(cfg, old(View(ref)), ExtendLoan(end), env)
      ensures reply == ReplyTo(cfg, old(View(ref)), ExtendLoan(end), env)
      ensures forall other :: other != ref ==> View(other) == old(View(other))
    {
      hide EventsOf, First, IdsAreIndices, EventsHaveRows;
      var found := statuses.GetByLicenseID(cfg, ref, env.readOk);
      if !found.Found? {
        return Error(if found.Missing? then 404 else 500);
      }
      var row := found.row;
      assert PlanOf(cfg, View(ref), ExtendLoan(end), env) == ExtendPlan(cfg, row, end, env);
      var suggested, code := ExtensionEnd(row, end, env);
      if suggested.None? {
        return Error(code);
      }
      var suggestedEnd := suggested.value;
      var event := Event(row.id, Renew, "suscription", "subscription", Trunc(env.second));
      row := row.(status := Active);
      row := row.(end := Some(suggestedEnd));
      row := row.(statusUpdated := event.time);
      row := row.(licenseUpdated := event.time);
      var fault := CarryOut(ref, event, suggestedEnd, row, env);
      if fault.Some? {
        return Error(fault.value);
      }
      reply := FillLicenseStatus(ref, row, env.listing);
    }

    method LendingCancellation(ref: string, wanted: Option<Status>, env: Env) returns (reply: Reply)
      requires Valid()
      modifies statuses, events, lcp
      ensures Valid()
      ensures View(ref) == Next(cfg, old(View(ref)), CancelLoan(wanted), env)
      ensures reply == ReplyTo(cfg, old(View(ref)), CancelLoan(wanted), env)
      ensures forall other :: other != ref ==> View(other) == old(View(other))
    {
      hide EventsOf, First, IdsAreIndices, EventsHaveRows;
      var found := statuses.GetByLicenseID(cfg, ref, env.readOk);
      if !found.Found? {
        return Error(if found.Missing? then 404 else 500);
      }
      var row := found.row;
      assert PlanOf(cfg, View(ref), CancelLoan(wanted), env) == CancelPlan(row, wanted, env);
      if wanted.None? {
        return Error(500);
      }
      var newStatus := wanted.value;
      if !newStatus.Revoked? && !newStatus.Cancelled? {
        return Error(400);
      }
      if newStatus.Cancelled? && !row.status.Ready? {
        return Error(400);
      }
      if newStatus.Revoked? && !row.status.Ready? && !row.status.Active? {
        return Error(400);
      }
      // a license that was never used is cancelled, not revoked
      if newStatus.Revoked? && row.status.Ready? {
        newStatus := Cancelled;
      }
      var currentTime := Trunc(env.first);
      var code, err := UpdateLicense(currentTime, ref, env.second, env);
      if FaultOf(code, err).Some? {
        return Error(FaultOf(code, err).value);
      }
      var event := Event(row.id, if newStatus.Cancelled? then Cancel else Revoke, "system", "system", Trunc(env.third));
      var ok := AddEvent(ref, event, env.log);
      if !ok {
        return Error(500);
      }
      row := row.(status := newStatus);
      row := row.(end := Some(currentTime));
      row := row.(statusUpdated := currentTime);
      row := row.(licenseUpdated := currentTime);
      row := row.(potentialEnd := None);
      ok := StoreRow(ref, row, env.store);
      if !ok {
        return Error(500);
      }
      reply := Empty;
    }
  }

  lemma {:induction false} NoEventsYet(events: seq<Event>, rowId: nat)
    requires EventsHaveRows(events, rowId)
    ensures EventsOf(events, rowId) == []
  {
    if events != [] {
      NoEventsYet(events[..|events| - 1], rowId);
    }
  }
}
