/** pack/pipeline.go: tasks are posted to workers that encrypt EPUB files and add them to a shared store and index. */
module Pipeline {
  import opened Options
  import opened Bytes

  type Id = string

  /** A SHA-256 digest, taken as free of collisions. */
  datatype Digest = Digest(of: seq<byte>)

  datatype Content = Content(id: Id, key: seq<byte>, location: string, length: int, sha256: Digest)

  datatype Info = Info(file: seq<byte>, size: int, sha256: Digest)

  datatype Fault = BadZip | BadEpub | NoTemp | BadPack | BadHash | NotStored | NotIndexed

  /** What the store does: it keeps the object; it answers without an error and keeps nothing, as the void storage does; or it
      fails, and may leave anything behind under the id. */
  datatype StoreAnswer = Kept | Dropped | Broken(left: Option<seq<byte>>)

  /** A posted file, with what its surroundings will answer: the random id, the readers, the packager (`out` is what
      it leaves in the temporary file), the store and the index. */
  datatype Task = Task(name: string, uuid: Option<Id>, zipReads: bool, epubReads: bool, tempOpens: bool, packs: bool,
                       key: seq<byte>, out: seq<byte>, hashes: bool, stored: StoreAnswer, indexAnswers: bool)

  datatype Result = Result(error: Option<Fault>, id: Id)

  datatype Local = Local(result: Result, info: Option<Info>, key: seq<byte>)

  /** The store and the index, where the id is the primary key. */
  datatype Shared = Shared(store: map<Id, seq<byte>>, index: map<Id, Content>)

  const FRESH := Local(Result(None, ""), None, [])

  const EMPTY := Shared(map[], map[])

  const STAGES := 6

  /** The id a task works under: a failure of the random source leaves it empty, without an error. */
  function KeyOf(t: Task): (r: Id) { if t.uuid.Some? then t.uuid.value else "" }

  predicate Ready(k: nat, l: Local) { l.result.error.None? && k >= 4 ==> l.info.Some? }

  function Failed(l: Local, fails: bool, f: Fault): (r: Local) {
    if fails then l.(result := l.result.(error := Some(f))) else l
  }

  /** Stage k of the work on a task: genKey, readZip, readEpub, encrypt, addToStore, addToIndex. */
  function Staged(t: Task, k: nat, l: Local, sh: Shared): (r: (Local, Shared))
    requires k < STAGES && Ready(k, l)
    ensures Ready(k + 1, r.0)
  {
    if l.result.error.Some? then (l, sh)
    else if k == 0 then (if t.uuid.Some? then l.(result := l.result.(id := t.uuid.value)) else l, sh)
    else if k == 1 then (Failed(l, !t.zipReads, BadZip), sh)
    else if k == 2 then (Failed(l, !t.epubReads, BadEpub), sh)
    else if k == 3 then
      (if !t.tempOpens then Failed(l, true, NoTemp)
       else if !t.hashes then Failed(l, true, BadHash)
       else Failed(l.(info := Some(Info(t.out, |t.out|, Digest(t.out))), key := t.key), !t.packs, BadPack), sh)
    else if k == 4 then
      match t.stored
      case Kept => (l, sh.(store := sh.store[l.result.id := l.info.value.file]))
      case Dropped => (l, sh)
      case Broken(left) =>
        (Failed(l, true, NotStored), if left.Some? then sh.(store := sh.store[l.result.id := left.value]) else sh)
    else if !t.indexAnswers || l.result.id in sh.index then (Failed(l, true, NotIndexed), sh)
    else
      (l, sh.(index := sh.index[l.result.id := Content(l.result.id, l.key, t.name, l.info.value.size, l.info.value.sha256)]))
  }

  /** The first k stages, with nothing in between. */
  function Alone(t: Task, k: nat, sh: Shared): (r: (Local, Shared))
    requires k <= STAGES
    ensures Ready(k, r.0)
  {
    if k == 0 then (FRESH, sh) else var (l, s) := Alone(t, k - 1, sh); Staged(t, k - 1, l, s)
  }

  // ----- the step system -----

  datatype Worker = Idle | Busy(task: nat, stage: nat, local: Local)

  /** A call of Post: which worker received its task, the results in its channel, the results Post returned. */
  datatype Ticket = Ticket(taken: Option<nat>, done: seq<Result>, returned: seq<Result>)

  datatype State = State(shared: Shared, workers: seq<Worker>, tickets: seq<Ticket>)

  datatype Step = Receive(worker: nat, task: nat) | Advance(worker: nat) | Answer(worker: nat) | Collect(task: nat)

  predicate Typed(ts: seq<Task>, s: State) {
    && |s.tickets| == |ts|
    && forall w :: 0 <= w < |s.workers| && s.workers[w].Busy? ==>
         s.workers[w].task < |ts| && s.workers[w].stage <= STAGES && Ready(s.workers[w].stage, s.workers[w].local)
  }

  /** The channel of tasks holds nothing, so a task goes from Post to an idle worker; the channel of results holds one. */
  predicate Enabled(ts: seq<Task>, s: State, step: Step)
    requires Typed(ts, s)
  {
    match step
    case Receive(w, t) => w < |s.workers| && s.workers[w].Idle? && t < |ts| && s.tickets[t].taken.None?
    case Advance(w) => w < |s.workers| && s.workers[w].Busy? && s.workers[w].stage < STAGES
    case Answer(w) =>
      w < |s.workers| && s.workers[w].Busy? && s.workers[w].stage == STAGES && s.tickets[s.workers[w].task].done == []
    case Collect(t) => t < |ts| && s.tickets[t].done != [] && s.tickets[t].returned == []
  }

  function Next(ts: seq<Task>, s: State, step: Step): (r: State)
    requires Typed(ts, s) && Enabled(ts, s, step)
    ensures Typed(ts, r) && |r.workers| == |s.workers|
  {
    match step
    case Receive(w, t) =>
      s.(workers := s.workers[w := Busy(t, 0, FRESH)], tickets := s.tickets[t := s.tickets[t].(taken := Some(w))])
    case Advance(w) =>
      var b := s.workers[w];
      var (l, sh) := Staged(ts[b.task], b.stage, b.local, s.shared);
      s.(workers := s.workers[w := Busy(b.task, b.stage + 1, l)], shared := sh)
    case Answer(w) =>
      var b := s.workers[w];
      s.(workers := s.workers[w := Idle], tickets := s.tickets[b.task := s.tickets[b.task].(done := [b.local.result])])
    case Collect(t) =>
      var k := s.tickets[t];
      s.(tickets := s.tickets[t := k.(done := k.done[1..], returned := k.returned + [k.done[0]])])
  }

  function Start(ts: seq<Task>, workers: nat, sh: Shared): (s: State)
    ensures Typed(ts, s)
  {
    State(sh, seq(workers, i => Idle), seq(|ts|, i => Ticket(None, [], [])))
  }

  /** The state after these steps; None when one of them was not enabled. */
  function After(ts: seq<Task>, s: State, run: seq<Step>): (r: Option<State>)
    requires Typed(ts, s)
    ensures r.Some? ==> Typed(ts, r.value) && |r.value.workers| == |s.workers|
  {
    if run == [] then Some(s)
    else
      var before := After(ts, s, run[..|run| - 1]);
      if before.Some? && Enabled(ts, before.value, run[|run| - 1]) then Some(Next(ts, before.value, run[|run| - 1])) else None
  }

  // ----- every task gets one result -----

  /** A task that a worker received is either in the hands of that worker or answered, once. */
  predicate Ledger(ts: seq<Task>, s: State)
    requires Typed(ts, s)
  {
    && (forall w :: 0 <= w < |s.workers| && s.workers[w].Busy? ==>
          s.tickets[s.workers[w].task] == Ticket(Some(w), [], []))
    && (forall t :: 0 <= t < |ts| ==> TicketInOrder(s, t))
  }

  predicate TicketInOrder(s: State, t: nat)
    requires t < |s.tickets|
  {
    var k := s.tickets[t];
    if k.taken.None? then k.done == [] && k.returned == []
    else if k.done == [] && k.returned == [] then
      k.taken.value < |s.workers| && s.workers[k.taken.value].Busy? && s.workers[k.taken.value].task == t
    else |k.done| + |k.returned| == 1
  }

  lemma LedgerKept(ts: seq<Task>, s: State, step: Step)
    requires Typed(ts, s) && Ledger(ts, s) && Enabled(ts, s, step)
    ensures Ledger(ts, Next(ts, s, step))
  {
    hide Staged;
    var r := Next(ts, s, step);
    forall t | 0 <= t < |ts| ensures TicketInOrder(r, t) {
      assert TicketInOrder(s, t);
    }
    forall w | 0 <= w < |r.workers| && r.workers[w].Busy? ensures r.tickets[r.workers[w].task] == Ticket(Some(w), [], []) {
      assert TicketInOrder(s, r.workers[w].task);
    }
  }

  /** What a ticket still needs: a worker, six stages, an answer, its return. */
  function Weight(s: State, t: nat): (r: nat)
    requires t < |s.tickets|
  {
    var k := s.tickets[t];
    if k.returned != [] then 0
    else if k.done != [] then 1
    else if k.taken.None? then STAGES + 3
    else if k.taken.value < |s.workers| && s.workers[k.taken.value].Busy? && s.workers[k.taken.value].stage <= STAGES
    then STAGES + 2 - s.workers[k.taken.value].stage
    else 0
  }

  function Total(s: State, n: nat): (r: nat)
    requires n <= |s.tickets|
  {
    if n == 0 then 0 else Total(s, n - 1) + Weight(s, n - 1)
  }

  function Moved(s: State, step: Step): (r: nat) {
    match step
    case Receive(_, t) => t
    case Advance(w) => if w < |s.workers| && s.workers[w].Busy? then s.workers[w].task else 0
    case Answer(w) => if w < |s.workers| && s.workers[w].Busy? then s.workers[w].task else 0
    case Collect(t) => t
  }

  lemma OneTicketMoves(ts: seq<Task>, s: State, step: Step, t: nat)
    requires Typed(ts, s) && Ledger(ts, s) && Enabled(ts, s, step) && t < |ts|
    ensures Weight(Next(ts, s, step), t) == if t == Moved(s, step) then Weight(s, t) - 1 else Weight(s, t)
  {
    hide Staged;
    assert TicketInOrder(s, t);
  }

  lemma {:induction false} TotalDrops(ts: seq<Task>, s: State, step: Step, n: nat)
    requires Typed(ts, s) && Ledger(ts, s) && Enabled(ts, s, step) && n <= |ts|
    ensures Total(Next(ts, s, step), n) == if Moved(s, step) < n then Total(s, n) - 1 else Total(s, n)
  {
    if n > 0 {
      TotalDrops(ts, s, step, n - 1);
      OneTicketMoves(ts, s, step, n - 1);
    }
  }

  lemma {:induction false} StartTotal(ts: seq<Task>, workers: nat, sh: Shared, n: nat)
    requires n <= |ts|
    ensures Total(Start(ts, workers, sh), n) == (STAGES + 3) * n
  {
    if n > 0 {
      StartTotal(ts, workers, sh, n - 1);
    }
  }

  /** Each step of any run brings the end one step nearer: after m steps, nine times the number of tasks less m remain. */
  lemma {:induction false} EveryStepCounts(ts: seq<Task>, workers: nat, sh: Shared, run: seq<Step>)
    requires After(ts, Start(ts, workers, sh), run).Some?
    ensures
      var s := After(ts, Start(ts, workers, sh), run).value;
      Ledger(ts, s) && Total(s, |ts|) == (STAGES + 3) * |ts| - |run|
  {
    if run == [] {
      StartTotal(ts, workers, sh, |ts|);
    } else {
      EveryStepCounts(ts, workers, sh, run[..|run| - 1]);
      var before := After(ts, Start(ts, workers, sh), run[..|run| - 1]).value;
      LedgerKept(ts, before, run[|run| - 1]);
      TotalDrops(ts, before, run[|run| - 1], |ts|);
    }
  }

  lemma {:induction false} NothingLeft(s: State, n: nat)
    requires n <= |s.tickets|
    ensures Total(s, n) == 0 <==> forall t :: 0 <= t < n ==> Weight(s, t) == 0
  {
    if n > 0 {
      NothingLeft(s, n - 1);
    }
  }

  /** With a worker, a run can go on as long as some Post has not returned: nothing ever waits for ever. */
  lemma NoDeadlock(ts: seq<Task>, s: State, t: nat)
    requires Typed(ts, s) && Ledger(ts, s) && |s.workers| > 0
    requires t < |ts| && s.tickets[t].returned == []
    ensures exists step :: Enabled(ts, s, step)
  {
    assert TicketInOrder(s, t);
    var k := s.tickets[t];
    if k.done != [] {
      assert Enabled(ts, s, Collect(t));
    } else {
      var w := if k.taken.Some? then k.taken.value else 0;
      if s.workers[w].Idle? {
        assert Enabled(ts, s, Receive(w, t));
      } else if s.workers[w].stage < STAGES {
        assert Enabled(ts, s, Advance(w));
      } else {
        assert Enabled(ts, s, Answer(w));
      }
    }
  }

  lemma StepHasTask(ts: seq<Task>, s: State, step: Step)
    requires Typed(ts, s) && Ledger(ts, s) && Enabled(ts, s, step)
    ensures Moved(s, step) < |ts| && Weight(s, Moved(s, step)) > 0
  {
    assert step.Receive? ==> TicketInOrder(s, step.task);
  }

  lemma WeightLeft(s: State, t: nat)
    requires t < |s.tickets| && Weight(s, t) > 0
    ensures s.tickets[t].returned == []
  {
  }

  /** No run takes more than nine steps for each task, and one that cannot go on took exactly as many
      and left every Post with exactly one result. */
  lemma EveryPostReturnsOnce(ts: seq<Task>, workers: nat, sh: Shared, run: seq<Step>)
    requires After(ts, Start(ts, workers, sh), run).Some? && workers > 0
    ensures |run| <= (STAGES + 3) * |ts|
    ensures
      var s := After(ts, Start(ts, workers, sh), run).value;
      var over := forall step :: !Enabled(ts, s, step);
      && (over <==> |run| == (STAGES + 3) * |ts|)
      && (over <==> forall t :: 0 <= t < |ts| ==> |s.tickets[t].returned| == 1)
  {
    EveryStepCounts(ts, workers, sh, run);
    var s := After(ts, Start(ts, workers, sh), run).value;
    NothingLeft(s, |ts|);
    forall t | 0 <= t < |ts| ensures Weight(s, t) == 0 <==> |s.tickets[t].returned| == 1 {
      assert TicketInOrder(s, t);
    }
    hide Enabled, Weight, TicketInOrder;
    if t :| 0 <= t < |ts| && Weight(s, t) != 0 {
      assert s.tickets[t].returned == [] by { WeightLeft(s, t); }
      NoDeadlock(ts, s, t);
    } else {
      forall step ensures !Enabled(ts, s, step) {
        if Enabled(ts, s, step) {
          StepHasTask(ts, s, step);
        }
      }
    }
  }

  // ----- every schedule gives what each task gives alone -----

  /** What the store and the index hold under one id. */
  datatype Cell = Cell(stored: Option<seq<byte>>, indexed: Option<Content>)

  function At(sh: Shared, id: Id): (r: Cell) {
    Cell(if id in sh.store then Some(sh.store[id]) else None, if id in sh.index then Some(sh.index[id]) else None)
  }

  /** The ids drawn are distinct and not in use. */
  predicate FreshIds(ts: seq<Task>, sh: Shared) {
    && (forall i, j :: 0 <= i < j < |ts| ==> KeyOf(ts[i]) != KeyOf(ts[j]))
    && (forall i :: 0 <= i < |ts| ==> At(sh, KeyOf(ts[i])) == Cell(None, None))
  }

  predicate UnderItsKey(t: Task, k: nat, l: Local) { k > 0 ==> l.result.id == KeyOf(t) }

  /** The result of task t is settled: its worker holds it, or it is on its way to Post, or Post has returned it. */
  predicate Settled(s: State, t: nat, result: Result)
    requires t < |s.tickets|
  {
    var k := s.tickets[t];
    && k.taken.Some?
    && (if k.done == [] && k.returned == []
        then k.taken.value < |s.workers| && s.workers[k.taken.value].Busy? && s.workers[k.taken.value].task == t
             && s.workers[k.taken.value].local.result == result
        else k.done + k.returned == [result])
  }

  lemma FailureStays(ts: seq<Task>, s: State, step: Step, t: nat, result: Result)
    requires Typed(ts, s) && Ledger(ts, s) && Enabled(ts, s, step) && t < |ts| && Settled(s, t, result) && result.error.Some?
    ensures Settled(Next(ts, s, step), t, result)
    ensures step.Advance? && s.workers[step.worker].task == t ==> Next(ts, s, step).shared == s.shared
  {
    assert TicketInOrder(s, t);
  }

  /** Once the work on a task has failed, at any moment of any run: whatever steps follow, a further stage of this task changes
      neither the store nor the index, and no result but the failure ever reaches its Post. */
  lemma {:induction false} NothingAfterAnError(ts: seq<Task>, s: State, run: seq<Step>, t: nat, result: Result)
    requires Typed(ts, s) && Ledger(ts, s) && t < |ts| && Settled(s, t, result) && result.error.Some?
    requires After(ts, s, run).Some?
    ensures
      var later := After(ts, s, run).value;
      && Ledger(ts, later) && Settled(later, t, result)
      && (later.tickets[t].returned != [] ==> later.tickets[t].returned == [result])
      && forall w: nat ::
           Enabled(ts, later, Advance(w)) && later.workers[w].task == t ==> Next(ts, later, Advance(w)).shared == later.shared
  {
    if run != [] {
      NothingAfterAnError(ts, s, run[..|run| - 1], t, result);
      var before := After(ts, s, run[..|run| - 1]).value;
      LedgerKept(ts, before, run[|run| - 1]);
      FailureStays(ts, before, run[|run| - 1], t, result);
    }
    var later := After(ts, s, run).value;
    hide After, Next, Ledger;
    forall w: nat | Enabled(ts, later, Advance(w)) && later.workers[w].task == t ensures Next(ts, later, Advance(w)).shared == later.shared {
      FailureStays(ts, later, Advance(w), t, result);
    }
  }

  /** A stage reads and writes the store and the index under its own id only. */
  lemma StageIsLocal(t: Task, k: nat, l: Local, a: Shared, b: Shared, id: Id)
    requires k < STAGES && Ready(k, l) && UnderItsKey(t, k, l) && (k == 0 ==> l == FRESH)
    ensures UnderItsKey(t, k + 1, Staged(t, k, l, a).0)
    ensures At(a, KeyOf(t)) == At(b, KeyOf(t)) ==>
              Staged(t, k, l, a).0 == Staged(t, k, l, b).0
              && At(Staged(t, k, l, a).1, KeyOf(t)) == At(Staged(t, k, l, b).1, KeyOf(t))
    ensures id != KeyOf(t) ==> At(Staged(t, k, l, a).1, id) == At(a, id)
  {
  }

  lemma {:induction false} AloneUnderItsKey(t: Task, k: nat)
    requires k <= STAGES
    ensures UnderItsKey(t, k, Alone(t, k, EMPTY).0)
  {
    if k > 0 {
      AloneUnderItsKey(t, k - 1);
      StageIsLocal(t, k - 1, Alone(t, k - 1, EMPTY).0, EMPTY, EMPTY, "");
    }
  }

  /** How many stages of a task are behind it. */
  function Progress(s: State, t: nat): (k: nat)
    requires t < |s.tickets|
    ensures k <= STAGES
  {
    var k := s.tickets[t];
    if k.taken.None? then 0
    else if k.done == [] && k.returned == [] && k.taken.value < |s.workers| && s.workers[k.taken.value].Busy?
            && s.workers[k.taken.value].stage <= STAGES
    then s.workers[k.taken.value].stage
    else STAGES
  }

  /** Task t stands as after the same number of stages alone, in a world of its own. */
  ghost predicate AsAlone(ts: seq<Task>, s: State, t: nat)
    requires Typed(ts, s) && t < |ts|
  {
    && At(s.shared, KeyOf(ts[t])) == At(Alone(ts[t], Progress(s, t), EMPTY).1, KeyOf(ts[t]))
    && forall r :: r in s.tickets[t].done || r in s.tickets[t].returned ==> r == Alone(ts[t], STAGES, EMPTY).0.result
  }

  predicate WorkersAsAlone(ts: seq<Task>, s: State)
    requires Typed(ts, s)
  {
    forall w :: 0 <= w < |s.workers| && s.workers[w].Busy? ==>
      s.workers[w].local == Alone(ts[s.workers[w].task], s.workers[w].stage, EMPTY).0
  }

  predicate Drawn(ts: seq<Task>, id: Id) { exists t :: 0 <= t < |ts| && KeyOf(ts[t]) == id }

  ghost predicate Told(ts: seq<Task>, first: Shared, s: State)
    requires Typed(ts, s)
  {
    && WorkersAsAlone(ts, s)
    && (forall t :: 0 <= t < |ts| ==> AsAlone(ts, s, t))
    && (forall id :: !Drawn(ts, id) ==> At(s.shared, id) == At(first, id))
  }

  lemma AdvanceKeepsOne(ts: seq<Task>, s: State, w: nat, t: nat)
    requires Typed(ts, s) && Ledger(ts, s) && Enabled(ts, s, Advance(w)) && t < |ts|
    requires forall i, j :: 0 <= i < j < |ts| ==> KeyOf(ts[i]) != KeyOf(ts[j])
    requires WorkersAsAlone(ts, s) && AsAlone(ts, s, t) && AsAlone(ts, s, s.workers[w].task)
    ensures AsAlone(ts, Next(ts, s, Advance(w)), t)
    ensures t == s.workers[w].task ==>
              Next(ts, s, Advance(w)).workers[w].local == Alone(ts[t], s.workers[w].stage + 1, EMPTY).0
  {
    var b := s.workers[w];
    var task := ts[b.task];
    AloneUnderItsKey(task, b.stage);
    StageIsLocal(task, b.stage, b.local, s.shared, Alone(task, b.stage, EMPTY).1, KeyOf(ts[t]));
    hide Staged;
    assert Alone(task, b.stage + 1, EMPTY) == Staged(task, b.stage, b.local, Alone(task, b.stage, EMPTY).1);
    assert TicketInOrder(s, t);
  }

  lemma AdvanceKeepsTold(ts: seq<Task>, first: Shared, s: State, w: nat)
    requires FreshIds(ts, first) && Typed(ts, s) && Ledger(ts, s) && Enabled(ts, s, Advance(w)) && Told(ts, first, s)
    ensures Told(ts, first, Next(ts, s, Advance(w)))
  {
    hide Staged, Alone;
    var b, r := s.workers[w], Next(ts, s, Advance(w));
    forall t | 0 <= t < |ts| ensures AsAlone(ts, r, t) {
      AdvanceKeepsOne(ts, s, w, t);
    }
    AdvanceKeepsOne(ts, s, w, b.task);
    AloneUnderItsKey(ts[b.task], b.stage);
    forall id | !Drawn(ts, id) ensures At(r.shared, id) == At(first, id) {
      StageIsFirst(ts[b.task], b.stage);
      StageIsLocal(ts[b.task], b.stage, b.local, s.shared, s.shared, id);
    }
  }

  lemma StageIsFirst(t: Task, k: nat)
    requires k <= STAGES
    ensures k == 0 ==> Alone(t, k, EMPTY) == (FRESH, EMPTY)
  {
  }

  /** Receiving, answering and collecting leave every task at the stage it was; a result comes from its worker only. */
  lemma SameProgress(ts: seq<Task>, s: State, step: Step, t: nat)
    requires Typed(ts, s) && Ledger(ts, s) && Enabled(ts, s, step) && !step.Advance? && t < |ts|
    ensures Progress(Next(ts, s, step), t) == Progress(s, t)
    ensures
      var k, n := s.tickets[t], Next(ts, s, step).tickets[t];
      forall r :: r in n.done || r in n.returned ==>
        r in k.done || r in k.returned
        || (step.Answer? && s.workers[step.worker].task == t && r == s.workers[step.worker].local.result)
  {
    assert TicketInOrder(s, t);
    hide Alone, Staged;
  }

  lemma OthersKeepTold(ts: seq<Task>, first: Shared, s: State, step: Step)
    requires Typed(ts, s) && Ledger(ts, s) && Enabled(ts, s, step) && !step.Advance? && Told(ts, first, s)
    ensures Told(ts, first, Next(ts, s, step))
  {
    var r := Next(ts, s, step);
    assert r.shared == s.shared;
    if step.Receive? {
      StageIsFirst(ts[step.task], 0);
    }
    hide Alone, At;
    forall t | 0 <= t < |ts| ensures AsAlone(ts, r, t) {
      assert TicketInOrder(s, t) && AsAlone(ts, s, t);
      SameProgress(ts, s, step, t);
    }
  }

  /** Whatever the interleaving, with fresh ids: every task stands as it would alone, and nothing else changed. */
  lemma {:induction false} EveryScheduleIsAlone(ts: seq<Task>, workers: nat, first: Shared, run: seq<Step>)
    requires FreshIds(ts, first) && After(ts, Start(ts, workers, first), run).Some?
    ensures Told(ts, first, After(ts, Start(ts, workers, first), run).value)
  {
    hide Staged;
    if run == [] {
      forall t | 0 <= t < |ts| ensures AsAlone(ts, Start(ts, workers, first), t) {
        StageIsFirst(ts[t], 0);
      }
    } else {
      EveryScheduleIsAlone(ts, workers, first, run[..|run| - 1]);
      EveryStepCounts(ts, workers, first, run[..|run| - 1]);
      var before, step := After(ts, Start(ts, workers, first), run[..|run| - 1]).value, run[|run| - 1];
      hide Told, Alone, Ledger;
      if step.Advance? {
        AdvanceKeepsTold(ts, first, before, step.worker);
      } else {
        OthersKeepTold(ts, first, before, step);
      }
    }
  }

  predicate ReachesStore(t: Task) { t.zipReads && t.epubReads && t.tempOpens && t.hashes && t.packs }

  /** Nothing reports an error. */
  predicate Flawless(t: Task) { ReachesStore(t) && !t.stored.Broken? && t.indexAnswers }

  /** What a task writes to the store under its id. */
  function WriteOf(t: Task): (r: Option<seq<byte>>) {
    if !ReachesStore(t) then None else match t.stored case Kept => Some(t.out) case Dropped => None case Broken(left) => left
  }

  function EntryFor(t: Task): (r: Content) { Content(KeyOf(t), t.key, t.name, |t.out|, Digest(t.out)) }

  /** What a task leaves under its id. */
  function Left(t: Task): (r: Cell) {
    Cell(WriteOf(t), if Flawless(t) then Some(EntryFor(t)) else None)
  }

  function FaultOf(t: Task): (r: Option<Fault>) {
    if Flawless(t) then None
    else Some(if !t.zipReads then BadZip else if !t.epubReads then BadEpub else if !t.tempOpens then NoTemp
              else if !t.hashes then BadHash else if !t.packs then BadPack else if t.stored.Broken? then NotStored else NotIndexed)
  }

  lemma AloneBeforeStore(t: Task, sh: Shared)
    ensures
      var (l, s) := Alone(t, 4, sh);
      && s == sh && l.result.id == KeyOf(t)
      && (ReachesStore(t) <==> l.result.error.None?)
      && (!ReachesStore(t) ==> l.result.error == FaultOf(t))
      && (ReachesStore(t) ==> l.info == Some(Info(t.out, |t.out|, Digest(t.out))) && l.key == t.key)
  {
    var (l1, s1) := Alone(t, 1, sh);
    assert Alone(t, 0, sh) == (FRESH, sh);
    assert l1 == FRESH.(result := Result(None, KeyOf(t))) && s1 == sh;
    var (l2, s2) := Alone(t, 2, sh);
    assert (l2, s2) == Staged(t, 1, l1, s1);
    var (l3, s3) := Alone(t, 3, sh);
    assert (l3, s3) == Staged(t, 2, l2, s2);
    assert Alone(t, 4, sh) == Staged(t, 3, l3, s3);
  }

  /** What a task does in any world, when nothing comes in between. */
  lemma WhatATaskDoesOn(t: Task, sh: Shared)
    ensures
      var (l, s) := Alone(t, STAGES, sh);
      && s.store == (if WriteOf(t).Some? then sh.store[KeyOf(t) := WriteOf(t).value] else sh.store)
      && s.index == (if Flawless(t) && KeyOf(t) !in sh.index then sh.index[KeyOf(t) := EntryFor(t)] else sh.index)
      && l.result == Result(if Flawless(t) && KeyOf(t) in sh.index then Some(NotIndexed) else FaultOf(t), KeyOf(t))
  {
    AloneBeforeStore(t, sh);
    var (l4, s4) := Alone(t, 4, sh);
    var (l5, s5) := Alone(t, 5, sh);
    assert (l5, s5) == Staged(t, 4, l4, s4);
    assert Alone(t, 6, sh) == Staged(t, 5, l5, s5);
  }

  /** What a task does alone: the result says the first fault, and the traces are as `Left` says. */
  lemma WhatATaskDoes(t: Task)
    ensures Alone(t, STAGES, EMPTY).0.result == Result(FaultOf(t), KeyOf(t))
    ensures At(Alone(t, STAGES, EMPTY).1, KeyOf(t)) == Left(t)
  {
    WhatATaskDoesOn(t, EMPTY);
  }

  lemma ReturnedAsAlone(ts: seq<Task>, s: State, t: nat)
    requires Typed(ts, s) && t < |ts| && TicketInOrder(s, t) && AsAlone(ts, s, t) && |s.tickets[t].returned| == 1
    ensures s.tickets[t].returned == [Result(FaultOf(ts[t]), KeyOf(ts[t]))] && At(s.shared, KeyOf(ts[t])) == Left(ts[t])
  {
    WhatATaskDoes(ts[t]);
    hide Alone, Left, FaultOf, At;
    assert s.tickets[t].returned[0] in s.tickets[t].returned;
    assert Progress(s, t) == STAGES;
  }

  /** Under fresh ids each Post returns its own result, which has no error exactly when the index gained the task's entry;
      the store and the index hold what the tasks left under their ids and what was there under all others. */
  lemma AtTheEnd(ts: seq<Task>, workers: nat, first: Shared, run: seq<Step>)
    requires FreshIds(ts, first) && workers > 0
    requires After(ts, Start(ts, workers, first), run).Some? && |run| == (STAGES + 3) * |ts|
    ensures
      var s := After(ts, Start(ts, workers, first), run).value;
      && (forall t :: 0 <= t < |ts| ==>
            s.tickets[t].returned == [Result(FaultOf(ts[t]), KeyOf(ts[t]))] && At(s.shared, KeyOf(ts[t])) == Left(ts[t]))
      && (forall id :: !Drawn(ts, id) ==> At(s.shared, id) == At(first, id))
  {
    EveryPostReturnsOnce(ts, workers, first, run);
    EveryStepCounts(ts, workers, first, run);
    EveryScheduleIsAlone(ts, workers, first, run);
    hide Alone, Left, FaultOf, At, After, AsAlone, TicketInOrder;
    var s := After(ts, Start(ts, workers, first), run).value;
    forall t | 0 <= t < |ts|
      ensures s.tickets[t].returned == [Result(FaultOf(ts[t]), KeyOf(ts[t]))] && At(s.shared, KeyOf(ts[t])) == Left(ts[t])
    {
      ReturnedAsAlone(ts, s, t);
    }
  }

  lemma SameCells(a: Shared, b: Shared)
    requires forall id :: At(a, id) == At(b, id)
    ensures a == b
  {
    forall id ensures id in a.store <==> id in b.store ensures id in a.store ==> a.store[id] == b.store[id]
      ensures id in a.index <==> id in b.index ensures id in a.index ==> a.index[id] == b.index[id]
    {
      assert At(a, id) == At(b, id);
    }
    assert a.store == b.store && a.index == b.index;
  }

  /** Any two complete runs, of however many workers in whatever order, end with the same store, index and results. */
  lemma SchedulesAgree(ts: seq<Task>, first: Shared, m: nat, run1: seq<Step>, n: nat, run2: seq<Step>)
    requires FreshIds(ts, first) && m > 0 && n > 0
    requires After(ts, Start(ts, m, first), run1).Some? && |run1| == (STAGES + 3) * |ts|
    requires After(ts, Start(ts, n, first), run2).Some? && |run2| == (STAGES + 3) * |ts|
    ensures
      var a, b := After(ts, Start(ts, m, first), run1).value, After(ts, Start(ts, n, first), run2).value;
      a.shared == b.shared && forall t :: 0 <= t < |ts| ==> a.tickets[t].returned == b.tickets[t].returned
  {
    AtTheEnd(ts, m, first, run1);
    AtTheEnd(ts, n, first, run2);
    hide *;
    var a, b := After(ts, Start(ts, m, first), run1).value, After(ts, Start(ts, n, first), run2).value;
    forall id ensures At(a.shared, id) == At(b.shared, id) {
      DrawnOrNot(ts, id);
    }
    SameCells(a.shared, b.shared);
  }

  lemma DrawnOrNot(ts: seq<Task>, id: Id)
    ensures Drawn(ts, id) <==> exists t :: 0 <= t < |ts| && KeyOf(ts[t]) == id
  {
  }

  /** What one Post returns and leaves after any complete run with fresh ids, spelled out: the first fault and no entry, or no error
      and an entry with name, key, length and digest; the object where the store keeps it. */
  lemma WhatPostReturns(ts: seq<Task>, workers: nat, first: Shared, run: seq<Step>, i: nat)
    requires FreshIds(ts, first) && workers > 0 && i < |ts|
    requires After(ts, Start(ts, workers, first), run).Some? && |run| == (STAGES + 3) * |ts|
    ensures
      var s, t := After(ts, Start(ts, workers, first), run).value, ts[i];
      var id := if t.uuid.Some? then t.uuid.value else "";
      var packed := t.zipReads && t.epubReads && t.tempOpens && t.hashes && t.packs;
      && |s.tickets[i].returned| == 1 && s.tickets[i].returned[0].id == id
      && s.tickets[i].returned[0].error ==
         (if !t.zipReads then Some(BadZip) else if !t.epubReads then Some(BadEpub) else if !t.tempOpens then Some(NoTemp)
          else if !t.hashes then Some(BadHash) else if !t.packs then Some(BadPack) else if t.stored.Broken? then Some(NotStored)
          else if !t.indexAnswers then Some(NotIndexed) else None)
      && (id in s.shared.index <==> s.tickets[i].returned[0].error.None?)
      && (id in s.shared.index ==> s.shared.index[id] == Content(id, t.key, t.name, |t.out|, Digest(t.out)))
      && (id in s.shared.store <==> packed && (t.stored.Kept? || (t.stored.Broken? && t.stored.left.Some?)))
      && (packed && t.stored.Kept? ==> s.shared.store[id] == t.out)
  {
    AtTheEnd(ts, workers, first, run);
    hide After;
  }

  // ----- the index tells the truth about the store -----

  predicate Describes(c: Content, id: Id, sh: Shared) {
    c.id == id && id in sh.store && c.length == |sh.store[id]| && c.sha256 == Digest(sh.store[id])
  }

  /** Every index entry names a stored object of the same id, length and digest. */
  predicate Honest(sh: Shared) { forall id :: id in sh.index ==> Describes(sh.index[id], id, sh) }

  // With ids of any kind: which tasks make the index lie.

  predicate Holds(sh: Shared, id: Id, b: seq<byte>) { id in sh.store && sh.store[id] == b }

  predicate WritesOnly(t: Task, b: seq<byte>) { WriteOf(t).Some? ==> WriteOf(t).value == b }

  /** Task t agrees with the index there was and with all other tasks: it writes nothing else under an id that is indexed; and
      when it can become the first entry of its id, its object is kept, or there already, and no task of this id writes
      anything else. */
  predicate Agrees(ts: seq<Task>, first: Shared, t: nat)
    requires t < |ts|
  {
    var id := KeyOf(ts[t]);
    if id in first.index then id in first.store && WritesOnly(ts[t], first.store[id])
    else
      Flawless(ts[t]) ==>
        && (ts[t].stored.Kept? || Holds(first, id, ts[t].out))
        && forall u :: 0 <= u < |ts| && KeyOf(ts[u]) == id ==> WritesOnly(ts[u], ts[t].out)
  }

  predicate AllAgree(ts: seq<Task>, first: Shared) { forall t :: 0 <= t < |ts| ==> Agrees(ts, first, t) }

  /** The entries there were, and their objects, are as they were. */
  predicate OldEntriesStay(first: Shared, sh: Shared) {
    forall id :: id in first.index ==>
      id in sh.index && sh.index[id] == first.index[id] && id in first.store && Holds(sh, id, first.store[id])
  }

  /** The object of a task that the store drops is there all the same. */
  predicate DroppedIsThere(ts: seq<Task>, first: Shared, sh: Shared, t: nat)
    requires t < |ts|
  {
    Flawless(ts[t]) && ts[t].stored.Dropped? && KeyOf(ts[t]) !in first.index ==> Holds(sh, KeyOf(ts[t]), ts[t].out)
  }

  predicate IsEntryOf(ts: seq<Task>, sh: Shared, id: Id, t: nat)
    requires t < |ts| && id in sh.index
  {
    Flawless(ts[t]) && KeyOf(ts[t]) == id && sh.index[id] == EntryFor(ts[t]) && Holds(sh, id, ts[t].out)
  }

  predicate NewEntriesHold(ts: seq<Task>, first: Shared, sh: Shared) {
    forall id :: id in sh.index && id !in first.index ==> exists t :: 0 <= t < |ts| && IsEntryOf(ts, sh, id, t)
  }

  predicate SharedAgrees(ts: seq<Task>, first: Shared, sh: Shared) {
    && OldEntriesStay(first, sh)
    && (forall t :: 0 <= t < |ts| ==> DroppedIsThere(ts, first, sh, t))
    && NewEntriesHold(ts, first, sh)
  }

  /** Up to the index a worker stands as if it were alone, and what it is about to index is stored. */
  predicate WorkerAgrees(ts: seq<Task>, first: Shared, sh: Shared, w: Worker)
    requires w.Busy? ==> w.task < |ts|
  {
    w.Busy? ==>
      var t := ts[w.task];
      && (w.stage <= 5 ==> w.local == Alone(t, w.stage, EMPTY).0)
      && (w.stage == 5 && Flawless(t) && t.stored.Kept? && KeyOf(t) !in first.index ==> Holds(sh, KeyOf(t), t.out))
  }

  predicate StateAgrees(ts: seq<Task>, first: Shared, s: State)
    requires Typed(ts, s)
  {
    && SharedAgrees(ts, first, s.shared)
    && forall w :: 0 <= w < |s.workers| ==> WorkerAgrees(ts, first, s.shared, s.workers[w])
  }

  /** A write of one task keeps what all others rely on. */
  lemma WriteAgrees(ts: seq<Task>, first: Shared, sh: Shared, u: nat, later: Shared)
    requires AllAgree(ts, first) && SharedAgrees(ts, first, sh) && u < |ts| && WriteOf(ts[u]).Some?
    requires later == sh.(store := sh.store[KeyOf(ts[u]) := WriteOf(ts[u]).value])
    ensures SharedAgrees(ts, first, later)
    ensures forall w: Worker :: (w.Busy? ==> w.task < |ts|) && WorkerAgrees(ts, first, sh, w) ==> WorkerAgrees(ts, first, later, w)
  {
    var id := KeyOf(ts[u]);
    assert Agrees(ts, first, u);
    hide WriteOf, Flawless, EntryFor, Alone;
    forall t | 0 <= t < |ts| ensures DroppedIsThere(ts, first, later, t) {
      assert DroppedIsThere(ts, first, sh, t) && Agrees(ts, first, t);
    }
    forall i | i in later.index && i !in first.index ensures exists t :: 0 <= t < |ts| && IsEntryOf(ts, later, i, t) {
      var t :| 0 <= t < |ts| && IsEntryOf(ts, sh, i, t);
      assert Agrees(ts, first, t);
      assert IsEntryOf(ts, later, i, t);
    }
    forall w: Worker | (w.Busy? ==> w.task < |ts|) && WorkerAgrees(ts, first, sh, w) ensures WorkerAgrees(ts, first, later, w) {
      if w.Busy? {
        assert Agrees(ts, first, w.task);
      }
    }
  }

  /** A new entry of a task whose object is stored keeps what all others rely on. */
  lemma EntryAgrees(ts: seq<Task>, first: Shared, sh: Shared, u: nat, later: Shared)
    requires SharedAgrees(ts, first, sh) && u < |ts| && Flawless(ts[u]) && KeyOf(ts[u]) !in sh.index && Holds(sh, KeyOf(ts[u]), ts[u].out)
    requires later == sh.(index := sh.index[KeyOf(ts[u]) := EntryFor(ts[u])])
    ensures SharedAgrees(ts, first, later)
  {
    var id := KeyOf(ts[u]);
    hide WriteOf, Flawless, EntryFor;
    forall t | 0 <= t < |ts| ensures DroppedIsThere(ts, first, later, t) {
      assert DroppedIsThere(ts, first, sh, t);
    }
    forall i | i in later.index && i !in first.index ensures exists t :: 0 <= t < |ts| && IsEntryOf(ts, later, i, t) {
      if i == id {
        assert IsEntryOf(ts, later, i, u);
      } else {
        var t :| 0 <= t < |ts| && IsEntryOf(ts, sh, i, t);
        assert IsEntryOf(ts, later, i, t);
      }
    }
  }

  /** Up to the index, what a stage makes of its local state does not depend on the store and the index. */
  lemma StageIsBlind(t: Task, k: nat, sh: Shared)
    requires k < 5
    ensures Staged(t, k, Alone(t, k, EMPTY).0, sh).0 == Alone(t, k + 1, EMPTY).0
    ensures k < 4 ==> Staged(t, k, Alone(t, k, EMPTY).0, sh).1 == sh
    ensures k == 4 ==> Staged(t, k, Alone(t, k, EMPTY).0, sh).1 ==
                       if WriteOf(t).Some? then sh.(store := sh.store[KeyOf(t) := WriteOf(t).value]) else sh
  {
    AloneBeforeStore(t, EMPTY);
  }

  lemma LastStage(t: Task, sh: Shared)
    ensures Staged(t, 5, Alone(t, 5, EMPTY).0, sh).1 ==
            if Flawless(t) && KeyOf(t) !in sh.index then sh.(index := sh.index[KeyOf(t) := EntryFor(t)]) else sh
  {
    AloneBeforeStore(t, EMPTY);
    assert Alone(t, 5, EMPTY) == Staged(t, 4, Alone(t, 4, EMPTY).0, Alone(t, 4, EMPTY).1);
  }

  lemma AdvanceAgrees(ts: seq<Task>, first: Shared, s: State, w: nat)
    requires AllAgree(ts, first) && Typed(ts, s) && StateAgrees(ts, first, s) && Enabled(ts, s, Advance(w))
    ensures StateAgrees(ts, first, Next(ts, s, Advance(w)))
  {
    var b, n := s.workers[w], Next(ts, s, Advance(w));
    var t := ts[b.task];
    assert WorkerAgrees(ts, first, s.shared, b) && Agrees(ts, first, b.task) && DroppedIsThere(ts, first, s.shared, b.task);
    hide Alone, Staged, SharedAgrees, Agrees;
    if b.stage < 5 {
      StageIsBlind(t, b.stage, s.shared);
      if b.stage == 4 && WriteOf(t).Some? {
        WriteAgrees(ts, first, s.shared, b.task, n.shared);
      }
    } else {
      LastStage(t, s.shared);
      if n.shared != s.shared {
        OldEntriesAreIndexed(ts, first, s.shared);
        EntryAgrees(ts, first, s.shared, b.task, n.shared);
      }
    }
    forall v | 0 <= v < |n.workers| ensures WorkerAgrees(ts, first, n.shared, n.workers[v]) {
      assert WorkerAgrees(ts, first, s.shared, s.workers[v]);
    }
  }

  lemma OldEntriesAreIndexed(ts: seq<Task>, first: Shared, sh: Shared)
    requires SharedAgrees(ts, first, sh)
    ensures forall id :: id in first.index ==> id in sh.index
  {
  }

  lemma {:induction false} AgreementStays(ts: seq<Task>, workers: nat, first: Shared, run: seq<Step>)
    requires AllAgree(ts, first) && Honest(first) && After(ts, Start(ts, workers, first), run).Some?
    ensures StateAgrees(ts, first, After(ts, Start(ts, workers, first), run).value)
  {
    if run == [] {
      forall t | 0 <= t < |ts| ensures DroppedIsThere(ts, first, first, t) {
        assert Agrees(ts, first, t);
      }
      forall id | id in first.index ensures id in first.store {
        assert Describes(first.index[id], id, first);
      }
    } else {
      AgreementStays(ts, workers, first, run[..|run| - 1]);
      var before, step := After(ts, Start(ts, workers, first), run[..|run| - 1]).value, run[|run| - 1];
      if step.Advance? {
        hide StateAgrees, AllAgree;
        AdvanceAgrees(ts, first, before, step.worker);
      } else {
        hide SharedAgrees, AllAgree;
        OthersAgree(ts, first, before, step);
      }
    }
  }

  lemma OthersAgree(ts: seq<Task>, first: Shared, s: State, step: Step)
    requires Typed(ts, s) && StateAgrees(ts, first, s) && Enabled(ts, s, step) && !step.Advance?
    ensures StateAgrees(ts, first, Next(ts, s, step))
  {
    hide SharedAgrees;
    var n := Next(ts, s, step);
    forall v | 0 <= v < |n.workers| ensures WorkerAgrees(ts, first, n.shared, n.workers[v]) {
      assert WorkerAgrees(ts, first, s.shared, s.workers[v]);
      if n.workers[v] != s.workers[v] && n.workers[v].Busy? {
        StageIsFirst(ts[n.workers[v].task], 0);
      }
    }
  }

  lemma AgreementIsHonest(ts: seq<Task>, first: Shared, sh: Shared)
    requires SharedAgrees(ts, first, sh) && Honest(first)
    ensures Honest(sh)
  {
    forall id | id in sh.index ensures Describes(sh.index[id], id, sh) {
      if id in first.index {
        assert Describes(first.index[id], id, first);
      } else {
        var t :| 0 <= t < |ts| && IsEntryOf(ts, sh, id, t);
      }
    }
  }

  /** A task that disagrees makes the index lie in some run: alone, or followed by the task it disagrees with. */
  lemma DisagreementLies(ts: seq<Task>, workers: nat, first: Shared, t: nat) returns (run: seq<Step>)
    requires Honest(first) && workers > 0 && t < |ts| && !Agrees(ts, first, t)
    ensures After(ts, Start(ts, workers, first), run).Some? && !Honest(After(ts, Start(ts, workers, first), run).value.shared)
  {
    var id, start := KeyOf(ts[t]), Start(ts, workers, first);
    run := WholeTask(ts, start, [], start, t);
    WhatATaskDoesOn(ts[t], first);
    var s := After(ts, start, run).value;
    if id in first.index {
      assert Describes(first.index[id], id, first);
      assert !Describes(s.shared.index[id], id, s.shared);
    } else if ts[t].stored.Kept? || Holds(first, id, ts[t].out) {
      var u :| 0 <= u < |ts| && KeyOf(ts[u]) == id && !WritesOnly(ts[u], ts[t].out);
      run := WholeTask(ts, start, run, s, u);
      WhatATaskDoesOn(ts[u], s.shared);
      var q := After(ts, start, run).value;
      hide After, Alone;
      assert !Describes(q.shared.index[id], id, q.shared);
    } else {
      hide After, Alone;
      assert !Describes(s.shared.index[id], id, s.shared);
    }
  }

  /** With ids of any kind, any number of workers and any store: in every run and at every moment each index entry names a
      stored object of the same id, length and digest, exactly when all tasks agree. */
  lemma IndexIsHonestExactly(ts: seq<Task>, workers: nat, first: Shared)
    requires Honest(first) && workers > 0
    ensures
      (forall run :: After(ts, Start(ts, workers, first), run).Some? ==> Honest(After(ts, Start(ts, workers, first), run).value.shared))
      <==> AllAgree(ts, first)
  {
    hide Honest, After, Agrees;
    if AllAgree(ts, first) {
      forall run | After(ts, Start(ts, workers, first), run).Some?
        ensures Honest(After(ts, Start(ts, workers, first), run).value.shared)
      {
        AgreementStays(ts, workers, first, run);
        AgreementIsHonest(ts, first, After(ts, Start(ts, workers, first), run).value.shared);
      }
    } else {
      var t :| 0 <= t < |ts| && !Agrees(ts, first, t);
      var run := DisagreementLies(ts, workers, first, t);
    }
  }

  /** With fresh ids it is so exactly when the store keeps what it does not refuse, for every task that reports no error. */
  lemma FreshIndexIsHonestExactly(ts: seq<Task>, workers: nat, first: Shared)
    requires FreshIds(ts, first) && Honest(first) && workers > 0
    ensures
      (forall run :: After(ts, Start(ts, workers, first), run).Some? ==> Honest(After(ts, Start(ts, workers, first), run).value.shared))
      <==> forall t :: 0 <= t < |ts| && Flawless(ts[t]) ==> ts[t].stored.Kept?
  {
    IndexIsHonestExactly(ts, workers, first);
    hide After, Honest;
    forall t | 0 <= t < |ts| ensures Agrees(ts, first, t) <==> (Flawless(ts[t]) ==> ts[t].stored.Kept?) {
      assert At(first, KeyOf(ts[t])) == Cell(None, None);
      forall u | 0 <= u < |ts| && KeyOf(ts[u]) == KeyOf(ts[t]) ensures u == t {
      }
    }
  }

  /** The bytes that a step writes to the store, if it does. */
  function Writes(ts: seq<Task>, s: State, step: Step): (r: Option<(Id, seq<byte>)>)
    requires Typed(ts, s) && Enabled(ts, s, step)
  {
    if !step.Advance? then None
    else
      var b := s.workers[step.worker];
      if b.stage != 4 || b.local.result.error.Some? then None
      else match ts[b.task].stored
           case Kept => Some((b.local.result.id, b.local.info.value.file))
           case Dropped => None
           case Broken(left) => if left.Some? then Some((b.local.result.id, left.value)) else None
  }

  /** The object that a step gives to the store, which drops it without an error. */
  function Drops(ts: seq<Task>, s: State, step: Step): (r: Option<(Id, seq<byte>)>)
    requires Typed(ts, s) && Enabled(ts, s, step)
  {
    if !step.Advance? then None
    else
      var b := s.workers[step.worker];
      if b.stage != 4 || b.local.result.error.Some? || !ts[b.task].stored.Dropped? then None
      else Some((b.local.result.id, b.local.info.value.file))
  }

  /** The worker has handed its object to the store and will now index it. */
  predicate Indexing(w: Worker) { w.Busy? && w.stage == 5 && w.local.result.error.None? && w.local.info.Some? }

  predicate HasStored(w: Worker, sh: Shared)
    requires Indexing(w)
  {
    var id, i := w.local.result.id, w.local.info.value;
    id in sh.store && sh.store[id] == i.file
  }

  predicate Measured(w: Worker) {
    w.Busy? && w.local.info.Some? ==> w.local.info.value.size == |w.local.info.value.file| && w.local.info.value.sha256 == Digest(w.local.info.value.file)
  }

  /** The index is honest, and so will be what the workers are about to add to it. */
  predicate Truthful(s: State) {
    && Honest(s.shared)
    && (forall w :: 0 <= w < |s.workers| ==> Measured(s.workers[w]))
    && (forall w :: 0 <= w < |s.workers| && Indexing(s.workers[w]) ==> HasStored(s.workers[w], s.shared))
  }

  /** The id is indexed, or about to be. */
  predicate Claimed(s: State, id: Id) {
    id in s.shared.index || exists w :: 0 <= w < |s.workers| && Indexing(s.workers[w]) && s.workers[w].local.result.id == id
  }

  lemma WritingLosesTruthExactly(ts: seq<Task>, s: State, w: nat)
    requires Typed(ts, s) && Enabled(ts, s, Advance(w)) && Truthful(s) && Writes(ts, s, Advance(w)).Some?
    ensures
      var (id, b) := Writes(ts, s, Advance(w)).value;
      Truthful(Next(ts, s, Advance(w))) <==> !(Claimed(s, id) && s.shared.store[id] != b)
  {
    var (id, b) := Writes(ts, s, Advance(w)).value;
    var r := Next(ts, s, Advance(w));
    assert r.shared == s.shared.(store := s.shared.store[id := b]);
    assert forall v :: 0 <= v < |s.workers| && v != w ==> r.workers[v] == s.workers[v];
    hide Next, Staged, Writes;
    if id in s.shared.index {
      assert Describes(s.shared.index[id], id, s.shared);
      assert s.shared.store[id] != b ==> !Describes(r.shared.index[id], id, r.shared);
    }
    if v :| 0 <= v < |s.workers| && Indexing(s.workers[v]) && s.workers[v].local.result.id == id {
      assert HasStored(s.workers[v], s.shared);
      assert s.shared.store[id] != b ==> !HasStored(r.workers[v], r.shared);
    }
    if !(Claimed(s, id) && s.shared.store[id] != b) {
      forall i | i in r.shared.index ensures Describes(r.shared.index[i], i, r.shared) {
        assert Describes(s.shared.index[i], i, s.shared);
      }
      forall v | 0 <= v < |r.workers| && Indexing(r.workers[v]) ensures HasStored(r.workers[v], r.shared) {
        if v != w {
          assert HasStored(s.workers[v], s.shared);
        } else {
          assert Measured(s.workers[w]);
        }
      }
    }
  }

  lemma ReadingLosesTruthExactly(ts: seq<Task>, s: State, step: Step)
    requires Typed(ts, s) && Enabled(ts, s, step) && Truthful(s) && Writes(ts, s, step).None?
    ensures
      var d := Drops(ts, s, step);
      Truthful(Next(ts, s, step)) <==> (d.Some? ==> Holds(s.shared, d.value.0, d.value.1))
  {
    var r, d := Next(ts, s, step), Drops(ts, s, step);
    assert r.shared.store == s.shared.store;
    forall i | i in r.shared.index ensures Describes(r.shared.index[i], i, r.shared) {
      if i in s.shared.index {
        assert Describes(s.shared.index[i], i, s.shared);
      } else {
        assert HasStored(s.workers[step.worker], s.shared) && Measured(s.workers[step.worker]);
      }
    }
    forall v | 0 <= v < |r.workers| ensures Measured(r.workers[v]) {
      assert Measured(s.workers[v]);
    }
    if d.Some? {
      assert Indexing(r.workers[step.worker]);
      assert HasStored(r.workers[step.worker], r.shared) <==> Holds(s.shared, d.value.0, d.value.1);
    }
    forall v | 0 <= v < |r.workers| && Indexing(r.workers[v]) && (d.Some? ==> v != step.worker) ensures HasStored(r.workers[v], r.shared) {
      assert r.workers[v] == s.workers[v];
    }
  }

  /** With ids of any kind, a step loses the truth exactly when it writes other bytes under a claimed id, or has its object
      dropped that is not there anyway. */
  lemma TruthIsLostExactly(ts: seq<Task>, s: State, step: Step)
    requires Typed(ts, s) && Enabled(ts, s, step) && Truthful(s)
    ensures
      var wr, d := Writes(ts, s, step), Drops(ts, s, step);
      Truthful(Next(ts, s, step)) <==>
      && !(wr.Some? && Claimed(s, wr.value.0) && s.shared.store[wr.value.0] != wr.value.1)
      && !(d.Some? && !Holds(s.shared, d.value.0, d.value.1))
  {
    if Writes(ts, s, step).Some? {
      WritingLosesTruthExactly(ts, s, step.worker);
    } else {
      ReadingLosesTruthExactly(ts, s, step);
    }
  }

  // ----- one worker that takes the tasks in turn -----

  function InTurn(ts: seq<Task>, sh: Shared): (r: (seq<Result>, Shared))
    ensures |r.0| == |ts|
  {
    if ts == [] then ([], sh)
    else
      var (results, s) := InTurn(ts[..|ts| - 1], sh);
      var (l, s') := Alone(ts[|ts| - 1], STAGES, s);
      (results + [l.result], s')
  }

  lemma {:induction false} AloneAnywhere(t: Task, k: nat, sh: Shared, id: Id)
    requires k <= STAGES && At(sh, KeyOf(t)) == Cell(None, None)
    ensures Alone(t, k, sh).0 == Alone(t, k, EMPTY).0
    ensures At(Alone(t, k, sh).1, KeyOf(t)) == At(Alone(t, k, EMPTY).1, KeyOf(t))
    ensures id != KeyOf(t) ==> At(Alone(t, k, sh).1, id) == At(sh, id)
  {
    if k > 0 {
      AloneAnywhere(t, k - 1, sh, id);
      AloneUnderItsKey(t, k - 1);
      StageIsFirst(t, k - 1);
      hide Staged;
      StageIsLocal(t, k - 1, Alone(t, k - 1, sh).0, Alone(t, k - 1, sh).1, Alone(t, k - 1, EMPTY).1, id);
    }
  }

  lemma {:induction false} InTurnIsAlone(ts: seq<Task>, sh: Shared, id: Id)
    requires FreshIds(ts, sh)
    ensures
      var (results, s) := InTurn(ts, sh);
      && (forall t :: 0 <= t < |ts| ==> results[t] == Result(FaultOf(ts[t]), KeyOf(ts[t])))
      && (forall t :: 0 <= t < |ts| && KeyOf(ts[t]) == id ==> At(s, id) == Left(ts[t]))
      && (!Drawn(ts, id) ==> At(s, id) == At(sh, id))
  {
    hide Alone, FaultOf, Left;
    if ts != [] {
      var init, last := ts[..|ts| - 1], ts[|ts| - 1];
      assert forall i :: 0 <= i < |init| ==> init[i] == ts[i];
      InTurnIsAlone(init, sh, id);
      InTurnIsAlone(init, sh, KeyOf(last));
      AloneAnywhere(last, STAGES, InTurn(init, sh).1, id);
      WhatATaskDoes(last);
      assert KeyOf(ts[|ts| - 1]) == KeyOf(last);
    }
  }

  /** Any complete run of any number of workers does what one worker does that takes the tasks in turn. */
  lemma WorkersActLikeOne(ts: seq<Task>, workers: nat, first: Shared, run: seq<Step>)
    requires FreshIds(ts, first) && workers > 0
    requires After(ts, Start(ts, workers, first), run).Some? && |run| == (STAGES + 3) * |ts|
    ensures
      var s := After(ts, Start(ts, workers, first), run).value;
      s.shared == InTurn(ts, first).1 && forall t :: 0 <= t < |ts| ==> s.tickets[t].returned == [InTurn(ts, first).0[t]]
  {
    AtTheEnd(ts, workers, first, run);
    InTurnIsAlone(ts, first, "");
    hide After, FaultOf, Left, Alone, InTurn;
    var s := After(ts, Start(ts, workers, first), run).value;
    forall id ensures At(s.shared, id) == At(InTurn(ts, first).1, id) {
      InTurnIsAlone(ts, first, id);
      DrawnOrNot(ts, id);
    }
    SameCells(s.shared, InTurn(ts, first).1);
  }

  lemma OneStepMore(ts: seq<Task>, s: State, run: seq<Step>, m: State, step: Step) returns (longer: seq<Step>)
    requires Typed(ts, s) && After(ts, s, run) == Some(m) && Enabled(ts, m, step)
    ensures longer == run + [step] && After(ts, s, longer) == Some(Next(ts, m, step))
  {
    longer := run + [step];
    assert longer[..|longer| - 1] == run;
  }

  /** The first worker takes task n through k stages without a pause. */
  lemma {:induction false} AdvanceAlone(ts: seq<Task>, s: State, run: seq<Step>, m: State, n: nat, k: nat) returns (longer: seq<Step>)
    requires Typed(ts, s) && After(ts, s, run) == Some(m) && n < |ts| && k <= STAGES
    requires m.workers != [] && m.workers[0] == Busy(n, 0, FRESH)
    ensures |longer| == |run| + k
    ensures
      var (l, sh) := Alone(ts[n], k, m.shared);
      After(ts, s, longer) == Some(m.(shared := sh, workers := m.workers[0 := Busy(n, k, l)]))
  {
    longer := run;
    if k > 0 {
      hide After, Staged;
      var shorter := AdvanceAlone(ts, s, run, m, n, k - 1);
      var (l, sh) := Alone(ts[n], k - 1, m.shared);
      var now := m.(shared := sh, workers := m.workers[0 := Busy(n, k - 1, l)]);
      longer := OneStepMore(ts, s, shorter, now, Advance(0));
      var w := Busy(n, k, Alone(ts[n], k, m.shared).0);
      assert now.workers[0 := w] == m.workers[0 := w];
    } else {
      assert m.workers[0 := m.workers[0]] == m.workers;
    }
  }

  /** All the steps of one task, from its Post to the return of the result. */
  lemma WholeTask(ts: seq<Task>, s: State, run: seq<Step>, m: State, n: nat) returns (longer: seq<Step>)
    requires Typed(ts, s) && After(ts, s, run) == Some(m) && n < |ts| && m.tickets[n] == Ticket(None, [], [])
    requires m.workers != [] && m.workers[0] == Idle
    ensures |longer| == |run| + STAGES + 3
    ensures
      var (l, sh) := Alone(ts[n], STAGES, m.shared);
      After(ts, s, longer) == Some(State(sh, m.workers, m.tickets[n := Ticket(Some(0), [], [l.result])]))
  {
    hide After, Alone;
    var (l, sh) := Alone(ts[n], STAGES, m.shared);
    var r1 := OneStepMore(ts, s, run, m, Receive(0, n));
    var m1 := State(m.shared, m.workers[0 := Busy(n, 0, FRESH)], m.tickets[n := Ticket(Some(0), [], [])]);
    assert Next(ts, m, Receive(0, n)) == m1;
    var r2 := AdvanceAlone(ts, s, r1, m1, n, STAGES);
    var m2 := State(sh, m.workers[0 := Busy(n, STAGES, l)], m.tickets[n := Ticket(Some(0), [], [])]);
    assert m1.workers[0 := Busy(n, STAGES, l)] == m2.workers;
    var r3 := OneStepMore(ts, s, r2, m2, Answer(0));
    var m3 := State(sh, m.workers, m.tickets[n := Ticket(Some(0), [l.result], [])]);
    assert m2.workers[0 := Idle] == m.workers;
    assert Next(ts, m2, Answer(0)) == m3;
    longer := OneStepMore(ts, s, r3, m3, Collect(n));
    assert [l.result][1..] == [] && [] + [l.result] == [l.result];
    assert Next(ts, m3, Collect(n)) == State(sh, m.workers, m.tickets[n := Ticket(Some(0), [], [l.result])]);
  }

  lemma {:induction false} TurnByTurn(ts: seq<Task>, workers: nat, first: Shared, n: nat) returns (run: seq<Step>, m: State)
    requires n <= |ts| && workers > 0
    ensures After(ts, Start(ts, workers, first), run) == Some(m) && |run| == (STAGES + 3) * n
    ensures |m.tickets| == |ts| && m.workers == Start(ts, workers, first).workers && m.shared == InTurn(ts[..n], first).1
    ensures forall t :: 0 <= t < n ==> m.tickets[t].returned == [InTurn(ts[..n], first).0[t]]
    ensures forall t :: n <= t < |ts| ==> m.tickets[t] == Ticket(None, [], [])
  {
    if n == 0 {
      run, m := [], Start(ts, workers, first);
    } else {
      hide After, Alone;
      var shorter, before := TurnByTurn(ts, workers, first, n - 1);
      assert ts[..n][..n - 1] == ts[..n - 1];
      run := WholeTask(ts, Start(ts, workers, first), shorter, before, n - 1);
      m := After(ts, Start(ts, workers, first), run).value;
    }
  }

  /** The tasks taken in turn by the first of the workers are a complete run, fresh ids or not. */
  lemma InTurnIsARun(ts: seq<Task>, workers: nat, first: Shared) returns (run: seq<Step>)
    requires workers > 0
    ensures After(ts, Start(ts, workers, first), run).Some? && |run| == (STAGES + 3) * |ts|
    ensures
      var s := After(ts, Start(ts, workers, first), run).value;
      s.shared == InTurn(ts, first).1 && forall t :: 0 <= t < |ts| ==> s.tickets[t].returned == [InTurn(ts, first).0[t]]
  {
    var m;
    run, m := TurnByTurn(ts, workers, first, |ts|);
    assert ts[..|ts|] == ts;
  }

  /** Two tasks of one id and a store that keeps both objects: the second overwrites the object of the first, whose index entry
      stays; only the second Post tells of an error. */
  lemma SameIdsCollide(a: Task, b: Task, workers: nat) returns (run: seq<Step>)
    requires Flawless(a) && Flawless(b) && a.stored.Kept? && b.stored.Kept? && KeyOf(a) == KeyOf(b) && a.out != b.out && workers > 0
    ensures After([a, b], Start([a, b], workers, EMPTY), run).Some?
    ensures
      var s, id := After([a, b], Start([a, b], workers, EMPTY), run).value, KeyOf(a);
      && id in s.shared.index && s.shared.index[id] == EntryFor(a)
      && Holds(s.shared, id, b.out)
      && !Honest(s.shared)
      && s.tickets[0].returned == [Result(None, id)] && s.tickets[1].returned == [Result(Some(NotIndexed), id)]
  {
    run := InTurnIsARun([a, b], workers, EMPTY);
    var s0, id := Alone(a, STAGES, EMPTY).1, KeyOf(a);
    WhatATaskDoesOn(a, EMPTY);
    WhatATaskDoesOn(b, s0);
    hide Alone, After;
    assert [a, b][..1] == [a] && [a][..0] == [];
    assert InTurn([a], EMPTY) == ([] + [Alone(a, STAGES, EMPTY).0.result], s0);
    var sh := Alone(b, STAGES, s0).1;
    assert InTurn([a, b], EMPTY).1 == sh;
    assert !Describes(sh.index[id], id, sh);
  }

  /** A store that refuses the empty id: without a random id a task fails, says so, and leaves no trace. */
  lemma EmptyIdIsRefused(t: Task, sh: Shared)
    requires t.uuid.None? && ReachesStore(t) && t.stored == Broken(None)
    ensures Alone(t, STAGES, sh).0.result == Result(Some(NotStored), "") && Alone(t, STAGES, sh).1 == sh
  {
    WhatATaskDoesOn(t, sh);
  }

  // ----- the Go code -----

  class ResultBox {
    var error: Option<Fault>
    var id: Id

    constructor ()
      ensures Value() == Result(None, "")
    {
      error, id := None, "";
    }

    ghost function Value(): (r: Result) reads this { Result(error, id) }
  }

  class Packager {
    var store: map<Id, seq<byte>>
    var index: map<Id, Content>

    constructor (store: map<Id, seq<byte>>, index: map<Id, Content>)
      ensures Value() == Shared(store, index)
    {
      this.store, this.index := store, index;
    }

    ghost function Value(): (r: Shared) reads this { Shared(store, index) }

    method GenKey(r: ResultBox, t: Task)
      modifies r
      ensures (Local(r.Value(), None, []), Value()) == Staged(t, 0, Local(old(r.Value()), None, []), old(Value()))
    {
      if r.error.Some? || t.uuid.None? {
        return;
      }
      r.id := t.uuid.value;
    }

    method ReadZip(r: ResultBox, t: Task)
      modifies r
      ensures (Local(r.Value(), None, []), Value()) == Staged(t, 1, Local(old(r.Value()), None, []), old(Value()))
    {
      if r.error.Some? {
        return;
      }
      r.error := if t.zipReads then None else Some(BadZip);
    }

    method ReadEpub(r: ResultBox, t: Task)
      modifies r
      ensures (Local(r.Value(), None, []), Value()) == Staged(t, 2, Local(old(r.Value()), None, []), old(Value()))
    {
      if r.error.Some? {
        return;
      }
      r.error := if t.epubReads then None else Some(BadEpub);
    }

    method Encrypt(r: ResultBox, t: Task) returns (info: Option<Info>, key: seq<byte>)
      modifies r
      ensures (Local(r.Value(), info, key), Value()) == Staged(t, 3, Local(old(r.Value()), None, []), old(Value()))
    {
      if r.error.Some? {
        return None, [];
      }
      if !t.tempOpens {
        r.error := Some(NoTemp);
        return None, [];
      }
      r.error := if t.packs then None else Some(BadPack);
      if !t.hashes {
        r.error := Some(BadHash);
        return None, [];
      }
      info, key := Some(Info(t.out, |t.out|, Digest(t.out))), t.key;
    }

    method AddToStore(r: ResultBox, t: Task, info: Option<Info>, ghost key: seq<byte>)
      requires r.error.None? ==> info.Some?
      modifies r, this`store
      ensures (Local(r.Value(), info, key), Value()) == Staged(t, 4, Local(old(r.Value()), info, key), old(Value()))
    {
      if r.error.Some? {
        return;
      }
      match t.stored {
        case Kept =>
          store := store[r.id := info.value.file];
        case Dropped =>
        case Broken(left) =>
          if left.Some? {
            store := store[r.id := left.value];
          }
          r.error := Some(NotStored);
      }
    }

    method AddToIndex(r: ResultBox, key: seq<byte>, t: Task, info: Option<Info>)
      requires r.error.None? ==> info.Some?
      modifies r, this`index
      ensures (Local(r.Value(), info, key), Value()) == Staged(t, 5, Local(old(r.Value()), info, key), old(Value()))
    {
      if r.error.Some? {
        return;
      }
      if !t.indexAnswers || r.id in index {
        r.error := Some(NotIndexed);
        return;
      }
      index := index[r.id := Content(r.id, key, t.name, info.value.size, info.value.sha256)];
    }

    method WorkOn(t: Task) returns (r: ResultBox)
      modifies this
      ensures fresh(r) && r.Value() == Alone(t, STAGES, old(Value())).0.result
      ensures Value() == Alone(t, STAGES, old(Value())).1
    {
      hide Staged;
      ghost var sh := Value();
      r := new ResultBox();
      GenKey(r, t);
      assert (Local(r.Value(), None, []), Value()) == Alone(t, 1, sh);
      ReadZip(r, t);
      assert (Local(r.Value(), None, []), Value()) == Alone(t, 2, sh);
      ReadEpub(r, t);
      assert (Local(r.Value(), None, []), Value()) == Alone(t, 3, sh);
      var info, key := Encrypt(r, t);
      assert (Local(r.Value(), info, key), Value()) == Alone(t, 4, sh);
      AddToStore(r, t, info, key);
      assert (Local(r.Value(), info, key), Value()) == Alone(t, 5, sh);
      AddToIndex(r, key, t, info);
    }

    /** The loop of one worker, over the tasks it receives. */
    method Work(incoming: seq<Task>) returns (answers: seq<Result>)
      modifies this
      ensures (answers, Value()) == InTurn(incoming, old(Value()))
    {
      hide Alone;
      answers := [];
      for i := 0 to |incoming|
        invariant (answers, Value()) == InTurn(incoming[..i], old(Value()))
      {
        assert incoming[..i + 1][..i] == incoming[..i];
        var r := WorkOn(incoming[i]);
        answers := answers + [Result(r.error, r.id)];
      }
      assert incoming[..|incoming|] == incoming;
    }
  }
}
