/**
 * `processAll` over successive chunks, as interleaved steps: two phases with a barrier between them, the
 * jobs each phase runs concurrently, and the three maps they share.
 */
module Phases {
  import opened Results

  /** The shared maps: `validatorCache.address`, `txHashCache` and `addressCache.address`. */
  datatype Shared = Validators | TxHashes | Addresses

  /** Goroutines of one chunk; the indexed ones run once per commit or per transaction. */
  datatype Job =
    | ValidatorAddresses
    | TxHashIds
    | Blocks
    | Signing(i: nat)
    | Transaction(i: nat)
    | SolveAddresses
    | Message(i: nat)
    | FindHashes

  /** What one chunk brings: its number of commits and the hashes of its transactions. */
  datatype Work = Work(commits: nat, hashes: seq<string>)

  /** `transaction_general`, the message tables and `address_tx`. */
  datatype Table = TransactionGeneral | MessageTables | AddressTx

  /** A row written for a transaction: the chunk it was written in, its hash, and the id it carries. */
  datatype TxRow = TxRow(chunk: nat, table: Table, hash: string, id: int)

  datatype Stage = Idle | Phase1 | Phase2

  /** `over`: the jobs of the current chunk that have finished. */
  datatype State = State(
    stage: Stage,
    running: set<Job>,
    over: set<Job>,
    txHashCache: map<string, int>,
    caches: seq<map<string, int>>,
    rows: set<TxRow>)

  /** `ids` is what the database returned for the chunk's hashes, None when the insert failed. */
  datatype Event =
    | BeginChunk
    | Start(job: Job)
    | FinishTxHashIds(ids: Option<map<string, int>>)
    | Finish(job: Job, ok: bool)
    | ClosePhase1
    | ClosePhase2

  function Reads(j: Job): set<Shared> {
    match j
    case Signing(_) => {Validators}
    case Transaction(_) => {TxHashes}
    case Message(_) => {TxHashes, Addresses}
    case FindHashes => {TxHashes}
    case _ => {}
  }

  function Writes(j: Job): set<Shared> {
    match j
    case ValidatorAddresses => {Validators}
    case TxHashIds => {TxHashes}
    case SolveAddresses => {Addresses}
    case _ => {}
  }

  function Phase1Jobs(w: Work): set<Job> {
    {ValidatorAddresses} + (if w.hashes == [] then {} else {TxHashIds})
  }

  function MessageJobs(w: Work): set<Job> {
    set i: nat | i < |w.hashes| :: Message(i)
  }

  function Phase2Jobs(w: Work): set<Job> {
    {Blocks} + (set i: nat | i < w.commits :: Signing(i)) +
    (if w.hashes == [] then {}
     else (set i: nat | i < |w.hashes| :: Transaction(i)) + {SolveAddresses, FindHashes} + MessageJobs(w))
  }

  /**
   * Inside `ProcessMessages` the address solver comes first, then the message goroutines, then the lookup of
   * the hashes of failed batches; everything else in a phase is concurrent.
   */
  predicate MayStart(w: Work, s: State, j: Job) {
    && j !in s.running && j !in s.over
    && match s.stage
       case Idle => false
       case Phase1 => j in Phase1Jobs(w)
       case Phase2 =>
         && j in Phase2Jobs(w)
         && (j.Message? ==> SolveAddresses in s.over)
         && (j.FindHashes? ==> MessageJobs(w) <= s.over)
  }

  /** The row a goroutine contributes: none when a step of it fails or the hash is not in the cache. */
  function NewRows(k: nat, w: Work, s: State, j: Job, ok: bool): set<TxRow> {
    if !ok then {}
    else if j.Transaction? && j.i < |w.hashes| && w.hashes[j.i] in s.txHashCache then
      {TxRow(k, TransactionGeneral, w.hashes[j.i], s.txHashCache[w.hashes[j.i]])}
    else if j.Message? && j.i < |w.hashes| && w.hashes[j.i] in s.txHashCache then
      {TxRow(k, MessageTables, w.hashes[j.i], s.txHashCache[w.hashes[j.i]]),
       TxRow(k, AddressTx, w.hashes[j.i], s.txHashCache[w.hashes[j.i]])}
    else {}
  }

  /** The chunk in progress while not idle, the next one otherwise. */
  function Current(s: State): nat {
    if s.stage.Phase2? && s.caches != [] then |s.caches| - 1 else |s.caches|
  }

  /** `clear` and `maps.Copy` on success; on failure the map of the chunk before stays. */
  function Step(work: seq<Work>, s: State, e: Event): Option<State> {
    if s.stage.Phase2? && s.caches == [] then None
    else
      var k := Current(s);
      if k >= |work| then None
      else
        var w := work[k];
        match e
        case BeginChunk => if s.stage.Idle? then Some(s.(stage := Phase1, over := {})) else None
        case Start(j) => if MayStart(w, s, j) then Some(s.(running := s.running + {j})) else None
        case FinishTxHashIds(ids) =>
          if TxHashIds !in s.running then None
          else
            Some(s.(running := s.running - {TxHashIds}, over := s.over + {TxHashIds},
                    txHashCache := if ids.Some? then ids.value else s.txHashCache))
        case Finish(j, ok) =>
          if j !in s.running || j.TxHashIds? then None
          else
            Some(s.(running := s.running - {j}, over := s.over + {j}, rows := s.rows + NewRows(k, w, s, j, ok)))
        case ClosePhase1 =>
          if s.stage.Phase1? && Phase1Jobs(w) <= s.over then
            Some(s.(stage := Phase2, caches := s.caches + [s.txHashCache]))
          else None
        case ClosePhase2 =>
          if s.stage.Phase2? && Phase2Jobs(w) <= s.over then Some(s.(stage := Idle, over := {})) else None
  }

  const INITIAL := State(Idle, {}, {}, map[], [], {})

  function Run(work: seq<Work>, events: seq<Event>): Option<State> {
    if events == [] then Some(INITIAL)
    else
      match Run(work, events[..|events| - 1])
      case None => None
      case Some(s) => Step(work, s, events[|events| - 1])
  }

  // ----- What every step keeps -----

  ghost predicate JobsInv(w: Work, s: State) {
    && s.running !! s.over
    && match s.stage
       case Idle => s.running == {}
       case Phase1 => s.running <= Phase1Jobs(w) && s.over <= Phase1Jobs(w)
       case Phase2 =>
         && s.running <= Phase2Jobs(w) && Phase1Jobs(w) <= s.over <= Phase1Jobs(w) + Phase2Jobs(w)
         && (forall j :: j in s.running + s.over && j.Message? ==> SolveAddresses in s.over)
         && (FindHashes in s.running + s.over ==> MessageJobs(w) <= s.over)
  }

  ghost predicate CacheInv(s: State) {
    && (s.stage.Phase2? ==> |s.caches| > 0 && s.txHashCache == s.caches[|s.caches| - 1])
    && (s.stage.Idle? ==> s.txHashCache == if |s.caches| > 0 then s.caches[|s.caches| - 1] else map[])
    && forall r :: r in s.rows ==>
         r.chunk < |s.caches| && r.hash in s.caches[r.chunk] && r.id == s.caches[r.chunk][r.hash]
  }

  ghost predicate Inv(work: seq<Work>, s: State) {
    CacheInv(s) && (if Current(s) < |work| then JobsInv(work[Current(s)], s) else s.stage.Idle? && s.running == {})
  }

  lemma StepCache(work: seq<Work>, s: State, e: Event)
    requires CacheInv(s) && (s.stage.Idle? ==> s.running == {}) && Step(work, s, e).Some?
    requires Current(s) < |work| && JobsInv(work[Current(s)], s)
    ensures CacheInv(Step(work, s, e).value)
  {
    assert TxHashIds !in Phase2Jobs(work[Current(s)]);
    if e.Finish? && !s.stage.Phase2? {
      assert e.job in Phase1Jobs(work[Current(s)]);
    }
  }

  lemma StepJobs(work: seq<Work>, s: State, e: Event)
    requires Inv(work, s) && Step(work, s, e).Some?
    ensures var s' := Step(work, s, e).value;
            if Current(s') < |work| then JobsInv(work[Current(s')], s') else s'.stage.Idle? && s'.running == {}
  {
    if e.ClosePhase1? || e.ClosePhase2? {
      assert s.running == {};
    }
  }

  lemma {:induction false} RunInv(work: seq<Work>, events: seq<Event>)
    requires Run(work, events).Some?
    ensures Inv(work, Run(work, events).value)
  {
    if events != [] {
      var before := events[..|events| - 1];
      RunInv(work, before);
      StepCache(work, Run(work, before).value, events[|events| - 1]);
      StepJobs(work, Run(work, before).value, events[|events| - 1]);
    }
  }

  // ----- Nothing is left out -----

  /** How often a job finished since its chunk began. */
  function Finishes(events: seq<Event>, j: Job): nat {
    if events == [] then 0
    else NextFinishes(Finishes(events[..|events| - 1], j), events[|events| - 1], j)
  }

  function NextFinishes(before: nat, e: Event, j: Job): nat {
    match e
    case BeginChunk => 0
    case FinishTxHashIds(_) => if j == TxHashIds then before + 1 else before
    case Finish(k, _) => if j == k then before + 1 else before
    case _ => before
  }

  lemma StepFinishes(work: seq<Work>, s: State, e: Event, j: Job, before: nat)
    requires Current(s) < |work| && JobsInv(work[Current(s)], s) && Step(work, s, e).Some?
    requires !s.stage.Idle? ==> before == if j in s.over then 1 else 0
    ensures !Step(work, s, e).value.stage.Idle? ==>
              NextFinishes(before, e, j) == if j in Step(work, s, e).value.over then 1 else 0
  {
    hide NewRows, Phase1Jobs, Phase2Jobs, MessageJobs;
  }

  /** While a chunk is in progress its finished jobs are those over, each once. */
  lemma {:induction false} OverMeansFinished(work: seq<Work>, events: seq<Event>, j: Job)
    requires Run(work, events).Some? && !Run(work, events).value.stage.Idle?
    ensures Finishes(events, j) == if j in Run(work, events).value.over then 1 else 0
  {
    hide Step, NextFinishes, JobsInv, CacheInv;
    if events != [] {
      var before, e := events[..|events| - 1], events[|events| - 1];
      RunInv(work, before);
      StepNeedsWork(work, Run(work, before).value, e);
      if !Run(work, before).value.stage.Idle? {
        OverMeansFinished(work, before, j);
      }
      StepFinishes(work, Run(work, before).value, e, j, Finishes(before, j));
    }
  }

  lemma StepNeedsWork(work: seq<Work>, s: State, e: Event)
    requires Step(work, s, e).Some?
    ensures Current(s) < |work|
  {
  }

  /** A chunk closes only when every job of both its phases has finished, each exactly once. */
  lemma ClosedChunksAreDone(work: seq<Work>, events: seq<Event>, j: Job)
    requires Run(work, events).Some? && Step(work, Run(work, events).value, ClosePhase2).Some?
    ensures var k := Current(Run(work, events).value);
            && k < |work|
            && (j in Phase1Jobs(work[k]) + Phase2Jobs(work[k]) ==> Finishes(events, j) == 1)
  {
    RunInv(work, events);
    OverMeansFinished(work, events, j);
  }

  /** In full: what has run, each once, when a chunk closes. */
  lemma ClosedChunkRanAll(work: seq<Work>, events: seq<Event>, i: nat)
    requires Run(work, events).Some? && Step(work, Run(work, events).value, ClosePhase2).Some?
    ensures var w := work[Current(Run(work, events).value)];
            && Finishes(events, ValidatorAddresses) == Finishes(events, Blocks) == 1
            && (i < w.commits ==> Finishes(events, Signing(i)) == 1)
            && (w.hashes != [] ==>
                  Finishes(events, TxHashIds) == Finishes(events, SolveAddresses) == Finishes(events, FindHashes) == 1)
            && (i < |w.hashes| ==> Finishes(events, Transaction(i)) == Finishes(events, Message(i)) == 1)
  {
    hide Run, Step, Finishes;
    ClosedChunksAreDone(work, events, ValidatorAddresses);
    ClosedChunksAreDone(work, events, Blocks);
    ClosedChunksAreDone(work, events, Signing(i));
    ClosedChunksAreDone(work, events, TxHashIds);
    ClosedChunksAreDone(work, events, SolveAddresses);
    ClosedChunksAreDone(work, events, FindHashes);
    ClosedChunksAreDone(work, events, Transaction(i));
    ClosedChunksAreDone(work, events, Message(i));
  }

  /** The rows of a transaction that a successful goroutine leaves, if its hash has an id. */
  function RowsLeft(k: nat, j: Job, hash: string, id: int): set<TxRow> {
    if j.Transaction? then {TxRow(k, TransactionGeneral, hash, id)}
    else if j.Message? then {TxRow(k, MessageTables, hash, id), TxRow(k, AddressTx, hash, id)}
    else {}
  }

  lemma {:induction false} RowsStay(work: seq<Work>, events: seq<Event>, more: seq<Event>)
    requires Run(work, events + more).Some?
    ensures Run(work, events).Some? && Run(work, events).value.rows <= Run(work, events + more).value.rows
    ensures |Run(work, events).value.caches| <= |Run(work, events + more).value.caches|
    ensures Run(work, events).value.caches <= Run(work, events + more).value.caches
    decreases |more|
  {
    if more == [] {
      assert events + more == events;
    } else {
      var n := |more| - 1;
      assert (events + more)[..|events + more| - 1] == events + more[..n];
      RowsStay(work, events, more[..n]);
    }
  }

  lemma RunOneMore(work: seq<Work>, events: seq<Event>, e: Event)
    ensures Run(work, events + [e]) ==
            match Run(work, events)
            case None => None
            case Some(s) => Step(work, s, e)
  {
    assert (events + [e])[..|events|] == events;
  }

  /** The state in which transaction job j may finish, and what it leaves then. */
  predicate Leaves(work: seq<Work>, s: State, j: Job, rows: set<TxRow>)
    requires j.Transaction? || j.Message?
  {
    var k := Current(s);
    && s.stage.Phase2? && k < |work| && k < |s.caches| && j.i < |work[k].hashes|
    && var hash := work[k].hashes[j.i];
    hash in s.caches[k] ==> RowsLeft(k, j, hash, s.caches[k][hash]) <= rows
  }

  lemma StepLeaves(work: seq<Work>, s: State, j: Job)
    requires Inv(work, s) && (j.Transaction? || j.Message?) && Step(work, s, Finish(j, true)).Some?
    ensures Leaves(work, s, j, Step(work, s, Finish(j, true)).value.rows)
  {
  }

  /**
   * A job that succeeded for transaction i of chunk k, whose hash has an id in that chunk, leaves its rows: in
   * `transaction_general`, or in the message tables and `address_tx`; and they stay.
   */
  lemma SuccessLeavesRows(work: seq<Work>, events: seq<Event>, j: Job, more: seq<Event>)
    requires j.Transaction? || j.Message?
    requires Run(work, events + [Finish(j, true)] + more).Some?
    ensures Run(work, events).Some?
    ensures Leaves(work, Run(work, events).value, j, Run(work, events + [Finish(j, true)] + more).value.rows)
  {
    hide Inv, Step, Leaves;
    RowsStay(work, events + [Finish(j, true)], more);
    RunOneMore(work, events, Finish(j, true));
    RunInv(work, events);
    StepLeaves(work, Run(work, events).value, j);
    LeavesMore(work, Run(work, events).value, j, Run(work, events + [Finish(j, true)]).value.rows,
               Run(work, events + [Finish(j, true)] + more).value.rows);
  }

  lemma LeavesMore(work: seq<Work>, s: State, j: Job, rows: set<TxRow>, more: set<TxRow>)
    requires (j.Transaction? || j.Message?) && Leaves(work, s, j, rows) && rows <= more
    ensures Leaves(work, s, j, more)
  {
  }

  // ----- The guarantees -----

  /**
   * In every schedule of every sequence of chunks, no shared map is touched by two jobs at once if one of them
   * writes it.
   */
  lemma NoDataRace(work: seq<Work>, events: seq<Event>, a: Job, b: Job)
    requires Run(work, events).Some?
    requires a in Run(work, events).value.running && b in Run(work, events).value.running && a != b
    ensures Writes(a) !! Reads(b) + Writes(b)
  {
    RunInv(work, events);
  }

  /**
   * While any job reads the transaction ids, the validators or the addresses, the phase-1 jobs of its chunk have
   * ended: they are over, and none of them runs again. So is the address solver while a job reads addresses.
   */
  lemma LookupsFollowPhase1(work: seq<Work>, events: seq<Event>, j: Job)
    requires Run(work, events).Some?
    requires j in Run(work, events).value.running && Reads(j) != {}
    ensures var s := Run(work, events).value;
            && s.stage.Phase2? && Current(s) < |work|
            && Phase1Jobs(work[Current(s)]) <= s.over
            && ValidatorAddresses in s.over && (work[Current(s)].hashes != [] ==> TxHashIds in s.over)
            && ValidatorAddresses !in s.running && TxHashIds !in s.running
            && (Addresses in Reads(j) ==> SolveAddresses in s.over && SolveAddresses !in s.running)
  {
    RunInv(work, events);
  }

  /**
   * Every row written for a transaction, in whatever table, carries the id its hash had when phase 1 of
   * its chunk ended; so two rows of one chunk for one hash agree.
   */
  lemma RowsShareTheStoredId(work: seq<Work>, events: seq<Event>, r: TxRow, q: TxRow)
    requires Run(work, events).Some?
    requires r in Run(work, events).value.rows && q in Run(work, events).value.rows
    ensures var s := Run(work, events).value;
            r.chunk < |s.caches| && r.hash in s.caches[r.chunk] && r.id == s.caches[r.chunk][r.hash]
    ensures r.chunk == q.chunk && r.hash == q.hash ==> r.id == q.id
  {
    RunInv(work, events);
  }

  type Answer = Option<map<string, int>>

  /**
   * The answers of the chunks' `InsertTxHashIds` calls, one per closed phase 1 (None: no transactions, or the
   * call failed), and the answer of the phase in progress.
   */
  function Answers(events: seq<Event>): (seq<Answer>, Answer) {
    if events == [] then ([], None)
    else
      var (before, held) := Answers(events[..|events| - 1]);
      NextAnswers(before, held, events[|events| - 1])
  }

  function NextAnswers(before: seq<Answer>, held: Answer, e: Event): (seq<Answer>, Answer) {
    match e
    case BeginChunk => (before, None)
    case FinishTxHashIds(ids) => (before, ids)
    case ClosePhase1 => (before + [held], held)
    case _ => (before, held)
  }

  /** The ids in force after these answers: those of the last successful one. */
  function InForce(answers: seq<Answer>): map<string, int> {
    if answers == [] then map[]
    else if answers[|answers| - 1].Some? then answers[|answers| - 1].value
    else InForce(answers[..|answers| - 1])
  }

  function AllInForce(answers: seq<Answer>): seq<map<string, int>> {
    if answers == [] then [] else AllInForce(answers[..|answers| - 1]) + [InForce(answers)]
  }

  ghost predicate Tracks(s: State, answers: seq<Answer>, held: Answer) {
    && s.caches == AllInForce(answers)
    && (s.stage.Idle? ==> s.txHashCache == InForce(answers))
    && (s.stage.Phase1? ==>
          && s.txHashCache == (if held.Some? then held.value else InForce(answers))
          && (TxHashIds !in s.over ==> held.None?))
  }

  lemma StepTracks(work: seq<Work>, s: State, e: Event, answers: seq<Answer>, held: Answer)
    requires Inv(work, s) && Tracks(s, answers, held) && Step(work, s, e).Some?
    ensures var (answers', held') := NextAnswers(answers, held, e);
            Tracks(Step(work, s, e).value, answers', held')
  {
    assert (answers + [held])[..|answers|] == answers;
    assert TxHashIds !in Phase2Jobs(work[Current(s)]);
    if s.stage.Phase2? && answers != [] {
      assert s.caches[|s.caches| - 1] == InForce(answers);
    }
  }

  /** A chunk's rows are written from the last successful answer up to that chunk; a failed one changes nothing. */
  lemma {:induction false} CachesComeFromAnswers(work: seq<Work>, events: seq<Event>)
    requires Run(work, events).Some?
    ensures Run(work, events).value.caches == AllInForce(Answers(events).0)
    ensures Tracks(Run(work, events).value, Answers(events).0, Answers(events).1)
  {
    if events != [] {
      var before := events[..|events| - 1];
      RunInv(work, before);
      CachesComeFromAnswers(work, before);
      var (answers, held) := Answers(before);
      StepTracks(work, Run(work, before).value, events[|events| - 1], answers, held);
    }
  }

  /** The barrier never deadlocks: until every chunk is done some event can happen. */
  lemma NeverStuck(work: seq<Work>, events: seq<Event>)
    requires Run(work, events).Some? && Current(Run(work, events).value) < |work|
    ensures exists e :: Step(work, Run(work, events).value, e).Some?
  {
    RunInv(work, events);
    var s := Run(work, events).value;
    var w := work[Current(s)];
    if j :| j in s.running {
      var e := if j.TxHashIds? then FinishTxHashIds(None) else Finish(j, true);
      assert Step(work, s, e).Some?;
    } else {
      var e := match s.stage
        case Idle => BeginChunk
        case Phase1 => if Phase1Jobs(w) <= s.over then ClosePhase1 else Start(Pick(Phase1Jobs(w) - s.over))
        case Phase2 =>
          if Phase2Jobs(w) <= s.over then ClosePhase2
          else if w.hashes != [] && SolveAddresses !in s.over then Start(SolveAddresses)
          else if !(MessageJobs(w) <= s.over) then Start(Pick(MessageJobs(w) - s.over))
          else Start(Pick(Phase2Jobs(w) - s.over));
      assert Step(work, s, e).Some?;
    }
  }

  ghost function Pick(jobs: set<Job>): (j: Job)
    requires jobs != {}
    ensures j in jobs
  {
    var j :| j in jobs;
    j
  }
}
