/** The key cache used by any number of goroutines at once: every lock operation, check, store
    and clock reading of refreshIfStale and of the key function is a step of its own, and the
    steps of different goroutines interleave freely over a clock that never goes back.

    The results are about whole runs: each call takes effect as one atomic operation of
    JwksCache between its call and its return, refreshes are at least ttl apart, and during a call
    that reports no error the atomic cache was fresh. */
module JwksSteps {
  import opened Sequences
  import opened Base64
  import opened JwksCache

  type Tid = nat

  /** Where a goroutine stands. `fetched` and `previous` are the new key map and, for the proof,
      the one it replaces. */
  datatype Pc =
    | Idle
    | CheckWait                                     // refreshIfStale: before RLock
    | Checking                                      // holds the read lock
    | Checked(isFresh: bool)                        // holds the read lock, age compared
    | LockWait                                      // stale, before Lock
    | Rechecking                                    // holds the write lock
    | Fetching                                      // holds the write lock, stale again, request under way
    | Storing(fetched: Keys)                        // holds the write lock, response decoded
    | Stamping(fetched: Keys, previous: Keys)       // holds the write lock, keys replaced, not yet fetchedAt
    | Stamped(fetched: Keys, at: int)               // holds the write lock, clock read, not yet fetchedAt
    | Unlocking(reply: Reply)                       // holds the write lock, deferred Unlock pending
    | Replying(reply: Reply)                        // no lock, about to return
    | LookupWait(kid: Option<string>)               // key function: before RLock
    | Looking(kid: Option<string>)                  // holds the read lock
    | Looked(result: Result<Bytes, LookupError>)    // holds the read lock, keys read
    | Answering(result: Result<Bytes, LookupError>) // no lock, about to return

  datatype State = State(ttl: int, now: int, keys: Keys, fetchedAt: int,
                         readers: set<Tid>, writer: Option<Tid>, pcs: map<Tid, Pc>)
  {
    function At(t: Tid): Pc {
      if t in pcs then pcs[t] else Idle
    }

    function Move(t: Tid, pc: Pc): State {
      this.(pcs := pcs[t := pc])
    }

    predicate IsFresh() { Fresh(ttl, now, fetchedAt) }
  }

  datatype Action =
    | CallRefresh | AcquireRead | CheckAge | ReleaseRead
    | AcquireWrite | Recheck | FetchFails | FetchReturns(keys: Keys) | StoreKeys | ReadClock | Stamp | ReleaseWrite
    | ReturnRefresh(reply: Reply)
    | CallLookup(kid: Option<string>) | ReadKeys | ReturnLookup(result: Result<Bytes, LookupError>)

  datatype Label = Tick(elapsed: nat) | Act(t: Tid, action: Action)

  predicate HoldsRead(pc: Pc) { pc.Checking? || pc.Checked? || pc.Looking? || pc.Looked? }

  predicate HoldsWrite(pc: Pc) {
    pc.Rechecking? || pc.Fetching? || pc.Storing? || pc.Stamping? || pc.Stamped? || pc.Unlocking?
  }

  predicate FoundStale(pc: Pc) { pc.Fetching? || pc.Storing? || pc.Stamping? }

  // ----- the steps -----

  /** One action of goroutine t; None when t is not at that point or a lock is not free. */
  ghost function Perform(s: State, t: Tid, action: Action): Option<State> {
    match (action, s.At(t))
    case (CallRefresh, Idle) => Some(s.Move(t, CheckWait))
    case (AcquireRead, CheckWait) => if s.writer.None? then Some(s.Move(t, Checking).(readers := s.readers + {t})) else None
    case (CheckAge, Checking) => Some(s.Move(t, Checked(s.IsFresh())))
    case (ReleaseRead, Checked(isFresh)) =>
      Some(s.Move(t, if isFresh then Replying(Ready) else LockWait).(readers := s.readers - {t}))
    case (AcquireWrite, LockWait) =>
      if s.writer.None? && s.readers == {} then Some(s.Move(t, Rechecking).(writer := Some(t))) else None
    case (Recheck, Rechecking) => Some(s.Move(t, if s.IsFresh() then Unlocking(Ready) else Fetching))
    case (FetchFails, Fetching) => Some(s.Move(t, Unlocking(Failed)))
    case (FetchReturns(keys), Fetching) => Some(s.Move(t, Storing(keys)))
    case (StoreKeys, Storing(fetched)) => Some(s.Move(t, Stamping(fetched, s.keys)).(keys := fetched))
    case (ReadClock, Stamping(fetched, _)) => Some(s.Move(t, Stamped(fetched, s.now)))
    case (Stamp, Stamped(_, at)) => Some(s.Move(t, Unlocking(Ready)).(fetchedAt := at))
    case (ReleaseWrite, Unlocking(reply)) => Some(s.Move(t, Replying(reply)).(writer := None))
    case (ReturnRefresh(reply), Replying(r)) => if reply == r then Some(s.Move(t, Idle)) else None
    case (CallLookup(kid), Idle) => Some(s.Move(t, LookupWait(kid)))
    case (AcquireRead, LookupWait(kid)) =>
      if s.writer.None? then Some(s.Move(t, Looking(kid)).(readers := s.readers + {t})) else None
    case (ReadKeys, Looking(kid)) => Some(s.Move(t, Looked(AtomicLookup(Cache(s.keys, s.fetchedAt), kid))))
    case (ReleaseRead, Looked(result)) => Some(s.Move(t, Answering(result)).(readers := s.readers - {t}))
    case (ReturnLookup(result), Answering(r)) => if result == r then Some(s.Move(t, Idle)) else None
    case _ => None
  }

  ghost function Step(s: State, l: Label): Option<State> {
    match l
    case Tick(elapsed) => Some(s.(now := s.now + elapsed))
    case Act(t, action) => Perform(s, t, action)
  }

  /** A new cache: no keys, and the zero time, which lies further back than a Duration reaches. */
  ghost predicate Init(s: State) {
    && s.keys == map[] && s.fetchedAt == ZERO_TIME
    && s.now - ZERO_TIME > MAX_DURATION
    && MIN_DURATION <= s.ttl <= MAX_DURATION
    && s.readers == {} && s.writer == None && s.pcs == map[]
  }

  datatype Run = Begin(s: State) | Extend(prior: Run, via: Label, s: State)

  ghost predicate Valid(run: Run) {
    match run
    case Begin(s) => Init(s)
    case Extend(prior, via, s) => Valid(prior) && Step(prior.s, via) == Some(s)
  }

  // ----- what every step keeps -----

  ghost predicate LocksAgree(s: State) {
    && (forall t: Tid :: t in s.readers <==> HoldsRead(s.At(t)))
    && (forall t: Tid :: s.writer == Some(t) <==> HoldsWrite(s.At(t)))
    && (s.writer.Some? ==> s.readers == {})
  }

  ghost predicate StaleWhileFetching(s: State) {
    forall t: Tid :: FoundStale(s.At(t)) ==> !s.IsFresh()
  }

  ghost predicate StoredIsFetched(s: State) {
    forall t: Tid :: s.At(t).Stamping? || s.At(t).Stamped? ==> s.keys == s.At(t).fetched
  }

  /** The clock reading about to be stored found the cache stale. */
  ghost predicate ReadingIsStale(s: State) {
    forall t: Tid :: s.At(t).Stamped? ==> s.fetchedAt <= s.At(t).at <= s.now && !Fresh(s.ttl, s.At(t).at, s.fetchedAt)
  }

  ghost predicate Inv(s: State) {
    LocksAgree(s) && StaleWhileFetching(s) && StoredIsFetched(s) && ReadingIsStale(s) && s.fetchedAt <= s.now
  }

  /** The lock discipline excludes two writers, and readers beside a writer. */
  lemma MutualExclusion(s: State, t: Tid, other: Tid)
    requires LocksAgree(s) && t != other && HoldsWrite(s.At(t))
    ensures !HoldsWrite(s.At(other)) && !HoldsRead(s.At(other))
  {
    assert s.writer == Some(t);
    assert s.readers == {};
    assert other !in s.readers;
  }

  lemma OthersStay(s: State, t: Tid, action: Action, s': State)
    requires Perform(s, t, action) == Some(s')
    ensures forall other: Tid | other != t :: s'.At(other) == s.At(other)
    ensures s'.ttl == s.ttl && s'.now == s.now
  {}

  lemma LocksAgreeStep(s: State, t: Tid, action: Action, s': State)
    requires LocksAgree(s) && Perform(s, t, action) == Some(s')
    ensures LocksAgree(s')
  {
    OthersStay(s, t, action, s');
    assert t in s.readers <==> HoldsRead(s.At(t));
    assert s.writer == Some(t) <==> HoldsWrite(s.At(t));
    forall other: Tid
      ensures other in s'.readers <==> HoldsRead(s'.At(other))
      ensures s'.writer == Some(other) <==> HoldsWrite(s'.At(other))
    {
      assert other in s.readers <==> HoldsRead(s.At(other));
      assert s.writer == Some(other) <==> HoldsWrite(s.At(other));
    }
  }

  /** A writer's step disturbs nobody who is fetching: there is no other writer. */
  lemma OthersNotFetching(s: State, t: Tid, other: Tid)
    requires LocksAgree(s) && t != other && HoldsWrite(s.At(t))
    ensures !FoundStale(s.At(other)) && !s.At(other).Stamped?
  {
    MutualExclusion(s, t, other);
  }

  lemma FetchStep(s: State, t: Tid, action: Action, s': State)
    requires Inv(s) && Perform(s, t, action) == Some(s')
    ensures StaleWhileFetching(s') && StoredIsFetched(s')
  {
    OthersStay(s, t, action, s');
    forall other: Tid
      ensures FoundStale(s'.At(other)) ==> !s'.IsFresh()
      ensures s'.At(other).Stamping? || s'.At(other).Stamped? ==> s'.keys == s'.At(other).fetched
    {
      assert FoundStale(s.At(other)) ==> !s.IsFresh();
      assert s.At(other).Stamping? || s.At(other).Stamped? ==> s.keys == s.At(other).fetched;
      if other != t && HoldsWrite(s.At(t)) {
        OthersNotFetching(s, t, other);
      }
    }
  }

  lemma ReadingStep(s: State, t: Tid, action: Action, s': State)
    requires Inv(s) && Perform(s, t, action) == Some(s')
    ensures ReadingIsStale(s') && s'.fetchedAt <= s'.now
  {
    OthersStay(s, t, action, s');
    assert s.At(t).Stamped? ==> s.At(t).at <= s.now;
    forall other: Tid
      ensures s'.At(other).Stamped? ==>
                s'.fetchedAt <= s'.At(other).at <= s'.now && !Fresh(s'.ttl, s'.At(other).at, s'.fetchedAt)
    {
      assert FoundStale(s.At(other)) ==> !s.IsFresh();
      assert s.At(other).Stamped? ==> s.fetchedAt <= s.At(other).at <= s.now && !Fresh(s.ttl, s.At(other).at, s.fetchedAt);
      if other != t && HoldsWrite(s.At(t)) {
        OthersNotFetching(s, t, other);
      }
    }
  }

  lemma TickStep(s: State, elapsed: nat)
    requires Inv(s)
    ensures Inv(s.(now := s.now + elapsed))
  {
    var s' := s.(now := s.now + elapsed);
    forall t: Tid
      ensures s'.At(t) == s.At(t)
      ensures FoundStale(s'.At(t)) ==> !s'.IsFresh()
    {
      assert FoundStale(s.At(t)) ==> !s.IsFresh();
    }
    assert forall t: Tid :: s.At(t).Stamped? ==> s.At(t).at <= s.now;
    assert forall t: Tid :: t in s'.readers <==> HoldsRead(s'.At(t));
    assert forall t: Tid :: s'.writer == Some(t) <==> HoldsWrite(s'.At(t));
  }

  lemma InvStep(s: State, l: Label, s': State)
    requires Inv(s) && Step(s, l) == Some(s')
    ensures Inv(s')
  {
    match l
    case Tick(elapsed) => TickStep(s, elapsed);
    case Act(t, action) =>
      LocksAgreeStep(s, t, action, s');
      FetchStep(s, t, action, s');
      ReadingStep(s, t, action, s');
  }

  lemma {:induction false} InvHolds(run: Run)
    requires Valid(run)
    ensures Inv(run.s)
  {
    match run
    case Begin(s) =>
      assert forall t: Tid :: s.At(t) == Idle;
    case Extend(prior, via, s) =>
      InvHolds(prior);
      InvStep(prior.s, via, s);
  }

  /** fetchedAt never goes back, and is only ever set to the reading its writer took. */
  lemma StampMonotone(s: State, l: Label, s': State)
    requires Inv(s) && Step(s, l) == Some(s')
    ensures s.fetchedAt <= s'.fetchedAt
    ensures s'.fetchedAt != s.fetchedAt ==> l.Act? && l.action.Stamp? && s.At(l.t) == Stamped(s.keys, s'.fetchedAt)
  {
    if l.Act? && s.At(l.t).Stamped? {
      assert s.fetchedAt <= s.At(l.t).at && s.keys == s.At(l.t).fetched;
    }
  }

  /** Some goroutine waits for the write lock; new readers may then have to queue behind it. */
  ghost predicate WriterWaits(s: State) { exists u: Tid :: s.At(u).LockWait? }

  /** The network, and no goroutine, takes these steps. */
  predicate NetworkAnswers(action: Action) { action.FetchFails? || action.FetchReturns? }

  ghost predicate CanStep(s: State, t: Tid, action: Action) {
    s.At(t) != Idle && Perform(s, t, action).Some? && (action.AcquireRead? ==> !WriterWaits(s))
  }

  predicate Returning(pc: Pc) { pc.Replying? || pc.Answering? }

  /** The double locking never deadlocks: while a call is under way, some call can take a step,
      without a reader overtaking a waiting writer, or is answered by the network. */
  lemma NoDeadlock(run: Run, t: Tid)
    requires Valid(run) && run.s.At(t) != Idle
    ensures exists u: Tid, action: Action :: CanStep(run.s, u, action)
  {
    var s := run.s;
    InvHolds(run);
    if s.writer.Some? {
      assert HoldsWrite(s.At(s.writer.value));
      var action := HolderMoves(s, s.writer.value);
      assert CanStep(s, s.writer.value, action);
    } else if s.readers != {} {
      var u :| u in s.readers;
      var action := HolderMoves(s, u);
      assert CanStep(s, u, action);
    } else if u: Tid :| s.At(u).LockWait? {
      assert CanStep(s, u, AcquireWrite);
    } else {
      var action := WaiterMoves(s, t);
      assert CanStep(s, t, action);
    }
  }

  /** While a request is under way nobody else gets a lock: another goroutine can only make a call,
      or return from one that is done with the locks. */
  lemma FetchHoldsUpOthers(run: Run, t: Tid, other: Tid, action: Action)
    requires Valid(run) && run.s.At(t).Fetching? && other != t
    requires Perform(run.s, other, action).Some?
    ensures run.s.At(other) == Idle || Returning(run.s.At(other))
  {
    InvHolds(run);
    MutualExclusion(run.s, t, other);
    assert run.s.writer == Some(t);
  }

  /** Without an answer of the network, calls under way get on exactly when no request is under way
      or one of them is returning. The request has no timeout: unanswered, it stops all others. */
  lemma ProgressIff(run: Run, t: Tid)
    requires Valid(run) && run.s.At(t) != Idle
    ensures (exists u: Tid, action: Action :: CanStep(run.s, u, action) && !NetworkAnswers(action))
            <==> (forall u: Tid :: !run.s.At(u).Fetching?) || exists u: Tid :: Returning(run.s.At(u))
  {
    var s := run.s;
    if u: Tid :| Returning(s.At(u)) {
      var action := if s.At(u).Replying? then ReturnRefresh(s.At(u).reply) else ReturnLookup(s.At(u).result);
      assert CanStep(s, u, action) && !NetworkAnswers(action);
    } else if f: Tid :| s.At(f).Fetching? {
      forall u: Tid, action: Action | CanStep(s, u, action) ensures NetworkAnswers(action) {
        if u != f {
          FetchHoldsUpOthers(run, f, u, action);
        }
      }
    } else {
      NoDeadlock(run, t);
      var u: Tid, action: Action :| CanStep(s, u, action);
      assert !NetworkAnswers(action);
    }
  }

  lemma HolderMoves(s: State, t: Tid) returns (action: Action)
    requires HoldsRead(s.At(t)) || HoldsWrite(s.At(t))
    ensures Perform(s, t, action).Some? && !action.AcquireRead?
  {
    match s.At(t)
    case Checking => action := CheckAge;
    case Looking(_) => action := ReadKeys;
    case Rechecking => action := Recheck;
    case Fetching => action := FetchFails;
    case Storing(_) => action := StoreKeys;
    case Stamping(_, _) => action := ReadClock;
    case Stamped(_, _) => action := Stamp;
    case Unlocking(_) => action := ReleaseWrite;
    case _ => action := ReleaseRead;
  }

  lemma WaiterMoves(s: State, t: Tid) returns (action: Action)
    requires s.writer.None? && s.readers == {}
    requires s.At(t) != Idle && !HoldsRead(s.At(t)) && !HoldsWrite(s.At(t))
    ensures Perform(s, t, action).Some?
  {
    match s.At(t)
    case LockWait => action := AcquireWrite;
    case Replying(reply) => action := ReturnRefresh(reply);
    case Answering(result) => action := ReturnLookup(result);
    case _ => action := AcquireRead;
  }

  // ----- refinement -----

  /** An operation of the atomic object. `fetched` is what the endpoint would give. */
  datatype Event = Refreshed(fetched: Fetched, reply: Reply)
                 | LookedUp(kid: Option<string>, result: Result<Bytes, LookupError>)

  /** The atomic object performing one operation at an instant; None if that is not what the
      object would answer. */
  ghost function AtomicStep(ttl: int, c: Cache, now: int, e: Event): Option<Cache> {
    match e
    case Refreshed(fetched, reply) =>
      var (after, r) := AtomicRefresh(ttl, c, now, fetched);
      if r == reply then Some(after) else None
    case LookedUp(kid, result) => if result == AtomicLookup(c, kid) then Some(c) else None
  }

  /** The cache the completed operations have made. A writer between its two stores has not
      refreshed it until it reads the clock, and has from then on. */
  function Abstract(s: State): Cache {
    match s.writer
    case None => Cache(s.keys, s.fetchedAt)
    case Some(t) =>
      match s.At(t)
      case Stamping(_, previous) => Cache(previous, s.fetchedAt)
      case Stamped(_, at) => Cache(s.keys, at)
      case _ => Cache(s.keys, s.fetchedAt)
  }

  /** The step at which a call takes effect, with the operation it performs. */
  ghost function Effect(s: State, l: Label): Option<(Tid, Event)> {
    match l
    case Tick(_) => None
    case Act(t, action) =>
      match (action, s.At(t))
      case (CheckAge, Checking) => if s.IsFresh() then Some((t, Refreshed(FetchFailed, Ready))) else None
      case (Recheck, Rechecking) => if s.IsFresh() then Some((t, Refreshed(FetchFailed, Ready))) else None
      case (FetchFails, Fetching) => Some((t, Refreshed(FetchFailed, Failed)))
      case (ReadClock, Stamping(fetched, _)) => Some((t, Refreshed(FetchOk(fetched), Ready)))
      case (ReadKeys, Looking(kid)) => Some((t, LookedUp(kid, AtomicLookup(Cache(s.keys, s.fetchedAt), kid))))
      case _ => None
  }

  ghost predicate Refines(s: State, l: Label, s': State) {
    match Effect(s, l)
    case None => Abstract(s') == Abstract(s)
    case Some((_, e)) => AtomicStep(s.ttl, Abstract(s), s.now, e) == Some(Abstract(s'))
  }

  lemma WriterRefines(s: State, t: Tid, action: Action, s': State)
    requires Inv(s) && Perform(s, t, action) == Some(s') && HoldsWrite(s.At(t))
    ensures Refines(s, Act(t, action), s')
  {
    assert s.writer == Some(t);
    assert FoundStale(s.At(t)) ==> !s.IsFresh();
    assert s.At(t).Stamping? ==> s.keys == s.At(t).fetched;
    OthersStay(s, t, action, s');
  }

  lemma OtherRefines(s: State, t: Tid, action: Action, s': State)
    requires Inv(s) && Perform(s, t, action) == Some(s') && !HoldsWrite(s.At(t))
    ensures Refines(s, Act(t, action), s')
  {
    assert s.writer != Some(t);
    assert t in s.readers <==> HoldsRead(s.At(t));
    OthersStay(s, t, action, s');
  }

  /** Every step either leaves the abstract cache alone or is one atomic operation on it. */
  lemma StepRefines(s: State, l: Label, s': State)
    requires Inv(s) && Step(s, l) == Some(s')
    ensures Refines(s, l, s')
  {
    match l
    case Tick(_) =>
    case Act(t, action) =>
      if HoldsWrite(s.At(t)) {
        WriterRefines(s, t, action, s');
      } else {
        OtherRefines(s, t, action, s');
      }
  }

  /** The operations of a run in the order they took effect, with the instants. */
  ghost function History(run: Run): seq<(int, Tid, Event)> {
    match run
    case Begin(_) => []
    case Extend(prior, via, _) =>
      match Effect(prior.s, via)
      case None => History(prior)
      case Some((t, e)) => History(prior) + [(prior.s.now, t, e)]
  }

  /** The atomic object taken through a sequence of operations, from the empty cache. */
  ghost function AtomicState(ttl: int, h: seq<(int, Tid, Event)>): Option<Cache> {
    if h == [] then Some(Cache(map[], ZERO_TIME))
    else
      match AtomicState(ttl, h[..|h| - 1])
      case None => None
      case Some(c) => AtomicStep(ttl, c, h[|h| - 1].0, h[|h| - 1].2)
  }

  /** Every run of the interleaved cache is a run of the atomic one. */
  lemma {:induction false} RunRefines(run: Run)
    requires Valid(run)
    ensures AtomicState(run.s.ttl, History(run)) == Some(Abstract(run.s))
  {
    match run
    case Begin(_) =>
    case Extend(prior, via, s) =>
      RunRefines(prior);
      InvHolds(prior);
      StepRefines(prior.s, via, s);
      TtlStays(prior.s, via, s);
      if Effect(prior.s, via).Some? {
        assert History(run)[..|History(run)| - 1] == History(prior);
      }
  }

  lemma TtlStays(s: State, l: Label, s': State)
    requires Step(s, l) == Some(s')
    ensures s'.ttl == s.ttl && s'.now >= s.now
  {}

  // ----- what the endpoint answered is what is stored -----

  /** The keys of the last answer goroutine t was given, read off the labels of the run. */
  ghost function LastReturned(run: Run, t: Tid): Option<Keys> {
    match run
    case Begin(_) => None
    case Extend(prior, via, _) =>
      match via
      case Act(u, FetchReturns(keys)) => if u == t then Some(keys) else LastReturned(prior, t)
      case _ => LastReturned(prior, t)
  }

  /** The instant of goroutine t's last clock reading. */
  ghost function LastReading(run: Run, t: Tid): Option<int> {
    match run
    case Begin(_) => None
    case Extend(prior, via, _) => if via == Act(t, ReadClock) then Some(prior.s.now) else LastReading(prior, t)
  }

  /** The answer and the reading of the goroutine that stamped last; the empty cache and the zero
      time before any stamp. */
  ghost function Published(run: Run): (Option<Keys>, Option<int>) {
    match run
    case Begin(_) => (Some(map[]), Some(ZERO_TIME))
    case Extend(prior, via, _) =>
      if via.Act? && via.action.Stamp? then (LastReturned(prior, via.t), LastReading(prior, via.t)) else Published(prior)
  }

  /** What a goroutine stores is the answer it was given. */
  lemma {:induction false} StoresAnswer(run: Run, t: Tid)
    requires Valid(run)
    ensures run.s.At(t).Storing? || run.s.At(t).Stamping? || run.s.At(t).Stamped? ==> LastReturned(run, t) == Some(run.s.At(t).fetched)
  {
    match run
    case Begin(_) =>
    case Extend(prior, via, s) =>
      StoresAnswer(prior, t);
      if via.Act? && via.t != t {
        OthersStay(prior.s, via.t, via.action, s);
      }
  }

  /** What it stamps is the instant it read. */
  lemma {:induction false} StampsReading(run: Run, t: Tid)
    requires Valid(run) && run.s.At(t).Stamped?
    ensures LastReading(run, t) == Some(run.s.At(t).at)
  {
    match run
    case Begin(_) =>
    case Extend(prior, via, s) =>
      if via.Act? && via.t != t {
        OthersStay(prior.s, via.t, via.action, s);
      }
      if prior.s.At(t).Stamped? {
        StampsReading(prior, t);
      }
  }

  /** A refresh takes effect with the answer its goroutine was given. */
  lemma EffectIsAnswer(run: Run, t: Tid)
    requires Valid(run) && run.s.At(t).Stamping?
    ensures LastReturned(run, t).Some?
    ensures Effect(run.s, Act(t, ReadClock)) == Some((t, Refreshed(FetchOk(LastReturned(run, t).value), Ready)))
  {
    StoresAnswer(run, t);
  }

  ghost predicate MidStore(s: State, t: Tid) { s.At(t).Stamping? || s.At(t).Stamped? }

  /** While nobody is between the two stores, the fields are those published; a writer between them
      remembers the keys that were. */
  ghost predicate ShowsPublished(run: Run) {
    && Published(run).1 == Some(run.s.fetchedAt)
    && ((forall t: Tid :: !MidStore(run.s, t)) ==> Published(run).0 == Some(run.s.keys))
    && (forall t: Tid :: run.s.At(t).Stamping? ==> Published(run).0 == Some(run.s.At(t).previous))
  }

  lemma StepShowsPublished(prior: Run, t: Tid, action: Action, s: State)
    requires Valid(prior) && ShowsPublished(prior) && Perform(prior.s, t, action) == Some(s)
    ensures ShowsPublished(Extend(prior, Act(t, action), s))
  {
    InvHolds(prior);
    StoresAnswer(prior, t);
    if prior.s.At(t).Stamped? {
      StampsReading(prior, t);
    }
    OthersStay(prior.s, t, action, s);
    forall u: Tid | u != t && HoldsWrite(prior.s.At(t)) ensures !MidStore(prior.s, u) && !MidStore(s, u) {
      OthersNotFetching(prior.s, t, u);
    }
    assert MidStore(prior.s, t) ==> prior.s.keys == prior.s.At(t).fetched;
    assert !MidStore(s, t) ==> forall u: Tid :: MidStore(prior.s, u) ==> u == t || MidStore(s, u);
  }

  lemma {:induction false} CacheIsPublished(run: Run)
    requires Valid(run)
    ensures ShowsPublished(run)
  {
    match run
    case Begin(_) =>
    case Extend(prior, via, s) =>
      CacheIsPublished(prior);
      if via.Act? {
        StepShowsPublished(prior, via.t, via.action, s);
      } else {
        assert forall t: Tid :: s.At(t) == prior.s.At(t);
        assert forall t: Tid :: MidStore(prior.s, t) ==> MidStore(s, t);
      }
  }

  /** Whoever holds the read lock sees the keys and the fetchedAt the completed operations left:
      the answer the last goroutine to stamp was given and the instant it read, never one of them
      from a fetch half stored. */
  lemma ReadersSeeOneFetch(run: Run, t: Tid)
    requires Valid(run) && HoldsRead(run.s.At(t))
    ensures AtomicState(run.s.ttl, History(run)) == Some(Cache(run.s.keys, run.s.fetchedAt))
    ensures Published(run) == (Some(run.s.keys), Some(run.s.fetchedAt))
  {
    InvHolds(run);
    RunRefines(run);
    CacheIsPublished(run);
    assert t in run.s.readers;
    assert forall u: Tid :: MidStore(run.s, u) ==> run.s.writer == Some(u);
  }

  // ----- one effect for each call, between call and return, with the value returned -----

  datatype Call = RefreshCall | LookupCall(kid: Option<string>)

  datatype Phase = Outside | Pending(call: Call) | Decided(event: Event)

  predicate Answers(e: Event, call: Call) {
    match call
    case RefreshCall => e.Refreshed?
    case LookupCall(kid) => e.LookedUp? && e.kid == kid
  }

  /** What an observer of one goroutine makes of a step: a call is followed by one effect of
      that call, and that by a return of the effect's result. None is a breach. */
  ghost function Observe(phase: Phase, t: Tid, l: Label, effect: Option<(Tid, Event)>): Option<Phase> {
    if !l.Act? || l.t != t then Some(phase)
    else if effect.Some? then
      if phase.Pending? && Answers(effect.value.1, phase.call) then Some(Decided(effect.value.1)) else None
    else
      match l.action
      case CallRefresh => if phase.Outside? then Some(Pending(RefreshCall)) else None
      case CallLookup(kid) => if phase.Outside? then Some(Pending(LookupCall(kid))) else None
      case ReturnRefresh(reply) =>
        if phase.Decided? && phase.event.Refreshed? && phase.event.reply == reply then Some(Outside) else None
      case ReturnLookup(result) =>
        if phase.Decided? && phase.event.LookedUp? && phase.event.result == result then Some(Outside) else None
      case _ => Some(phase)
  }

  ghost function PhaseAfter(run: Run, t: Tid): Option<Phase> {
    match run
    case Begin(_) => Some(Outside)
    case Extend(prior, via, _) =>
      match PhaseAfter(prior, t)
      case None => None
      case Some(phase) => Observe(phase, t, via, Effect(prior.s, via))
  }

  /** The phase a program point stands for. */
  ghost predicate InPhase(pc: Pc, phase: Phase) {
    match pc
    case Idle => phase == Outside
    case Checked(isFresh) =>
      if isFresh then phase.Decided? && phase.event.Refreshed? && phase.event.reply == Ready
      else phase == Pending(RefreshCall)
    case CheckWait => phase == Pending(RefreshCall)
    case Checking => phase == Pending(RefreshCall)
    case LockWait => phase == Pending(RefreshCall)
    case Rechecking => phase == Pending(RefreshCall)
    case Fetching => phase == Pending(RefreshCall)
    case Storing(_) => phase == Pending(RefreshCall)
    case Stamping(_, _) => phase == Pending(RefreshCall)
    case Stamped(_, _) => phase.Decided? && phase.event.Refreshed? && phase.event.reply == Ready
    case Unlocking(reply) => phase.Decided? && phase.event.Refreshed? && phase.event.reply == reply
    case Replying(reply) => phase.Decided? && phase.event.Refreshed? && phase.event.reply == reply
    case LookupWait(kid) => phase == Pending(LookupCall(kid))
    case Looking(kid) => phase == Pending(LookupCall(kid))
    case Looked(result) => phase.Decided? && phase.event.LookedUp? && phase.event.result == result
    case Answering(result) => phase.Decided? && phase.event.LookedUp? && phase.event.result == result
  }

  /** In every run, for every goroutine: each call takes effect exactly once, after the call and
      before the return, and returns the result of that operation. With RunRefines this makes
      the cache linearizable. */
  lemma {:induction false} CallsTakeEffectOnce(run: Run, t: Tid)
    requires Valid(run)
    ensures PhaseAfter(run, t).Some? && InPhase(run.s.At(t), PhaseAfter(run, t).value)
  {
    match run
    case Begin(_) =>
    case Extend(prior, via, s) =>
      CallsTakeEffectOnce(prior, t);
      ObserveStep(prior.s, via, s, t, PhaseAfter(prior, t).value);
  }

  lemma ObserveStep(s: State, l: Label, s': State, t: Tid, phase: Phase)
    requires Step(s, l) == Some(s') && InPhase(s.At(t), phase)
    ensures var next := Observe(phase, t, l, Effect(s, l));
            next.Some? && InPhase(s'.At(t), next.value)
  {
    if l.Act? {
      OthersStay(s, l.t, l.action, s');
    }
  }

  // ----- fresh moments of a call that reports no error -----

  /** Some state since goroutine t was last outside a call had the cache fresh. */
  ghost predicate FreshDuringCall(run: Run, t: Tid) {
    && run.s.At(t) != Idle
    && (Fresh(run.s.ttl, run.s.now, Abstract(run.s).fetchedAt) || (run.Extend? && FreshDuringCall(run.prior, t)))
  }

  /** A refresh that has its nil error. */
  predicate Succeeded(pc: Pc) {
    pc == Checked(true) || pc == Unlocking(Ready) || pc == Replying(Ready)
  }

  predicate WillSucceed(pc: Pc) { Succeeded(pc) || pc.Stamped? }

  lemma SuccessStep(s: State, t: Tid, action: Action, s': State)
    requires Inv(s) && Perform(s, t, action) == Some(s') && WillSucceed(s'.At(t))
    requires s.ttl > 0
    ensures WillSucceed(s.At(t)) || Fresh(s'.ttl, s'.now, Abstract(s').fetchedAt)
  {
    assert s.writer == Some(t) <==> HoldsWrite(s.At(t));
    assert t in s.readers <==> HoldsRead(s.At(t));
  }

  lemma {:induction false} SuccessSawFresh(run: Run, t: Tid)
    requires Valid(run) && run.s.ttl > 0 && WillSucceed(run.s.At(t))
    ensures FreshDuringCall(run, t)
  {
    match run
    case Begin(_) =>
    case Extend(prior, via, s) =>
      TtlStays(prior.s, via, s);
      InvHolds(prior);
      if via.Act? && via.t == t {
        SuccessStep(prior.s, t, via.action, s);
        if WillSucceed(prior.s.At(t)) {
          SuccessSawFresh(prior, t);
        }
      } else {
        if via.Act? {
          OthersStay(prior.s, via.t, via.action, s);
        }
        SuccessSawFresh(prior, t);
      }
  }

  lemma {:induction false} NeverFresh(run: Run, t: Tid)
    requires Valid(run) && run.s.ttl <= 0
    ensures !FreshDuringCall(run, t)
  {
    InvHolds(run);
    if run.s.writer.Some? {
      assert run.s.At(run.s.writer.value).Stamped? ==> run.s.At(run.s.writer.value).at <= run.s.now;
    }
    match run
    case Begin(_) =>
    case Extend(prior, via, s) =>
      TtlStays(prior.s, via, s);
      NeverFresh(prior, t);
  }

  /** A refresh about to return no error had a moment inside the call at which the age of the
      cache was below ttl, exactly when ttl is positive. For the caller that fetched this is the
      moment of its clock reading. */
  lemma SuccessFreshIff(run: Run, t: Tid)
    requires Valid(run) && WillSucceed(run.s.At(t))
    ensures FreshDuringCall(run, t) <==> run.s.ttl > 0
  {
    if run.s.ttl > 0 {
      SuccessSawFresh(run, t);
    } else {
      NeverFresh(run, t);
    }
  }

  /** The same of the field itself: fetchedAt was younger than ttl. */
  ghost predicate FieldFreshDuringCall(run: Run, t: Tid) {
    && run.s.At(t) != Idle
    && (run.s.IsFresh() || (run.Extend? && FieldFreshDuringCall(run.prior, t)))
  }

  /** In its present call goroutine t has stored a clock reading that was already stale. */
  ghost predicate StoredLate(run: Run, t: Tid) {
    && run.Extend?
    && run.s.At(t) != Idle
    && ((run.via == Act(t, Stamp) && !run.s.IsFresh()) || StoredLate(run.prior, t))
  }

  /** The field was fresh when goroutine t made its present call. */
  ghost predicate FreshWhenCalled(run: Run, t: Tid) {
    && run.s.At(t) != Idle
    && if run.Extend? && run.prior.s.At(t) != Idle then FreshWhenCalled(run.prior, t) else run.s.IsFresh()
  }

  /** During the present call of t some goroutine has stored a clock reading that was still fresh. */
  ghost predicate StoredInTime(run: Run, t: Tid) {
    && run.Extend?
    && run.s.At(t) != Idle
    && ((run.via.Act? && run.via.action.Stamp? && run.s.IsFresh()) || StoredInTime(run.prior, t))
  }

  /** Only a store makes the field fresh. */
  lemma FreshStep(s: State, l: Label, s': State)
    requires Step(s, l) == Some(s')
    ensures s'.IsFresh() ==> s.IsFresh() || (l.Act? && l.action.Stamp?)
  {}

  /** The field was fresh at some moment of a call exactly when it was at its start or some store
      during the call was in time: a call misses every fresh moment exactly when it finds the cache
      stale and every store until it returns is held up for ttl after its clock reading. */
  lemma {:induction false} FieldFreshIff(run: Run, t: Tid)
    requires Valid(run)
    ensures FieldFreshDuringCall(run, t) <==> FreshWhenCalled(run, t) || StoredInTime(run, t)
  {
    match run
    case Begin(_) =>
    case Extend(prior, via, s) =>
      FieldFreshIff(prior, t);
      FreshStep(prior.s, via, s);
  }

  lemma FieldStep(s: State, t: Tid, action: Action, s': State)
    requires Perform(s, t, action) == Some(s') && Succeeded(s'.At(t)) && !Succeeded(s.At(t))
    ensures s'.IsFresh() || action.Stamp?
  {}

  /** A successful call that finds the cache stale and misses every fresh moment has made such a
      late store itself. */
  lemma {:induction false} SuccessSawFieldFresh(run: Run, t: Tid)
    requires Valid(run) && Succeeded(run.s.At(t)) && !StoredLate(run, t)
    ensures FieldFreshDuringCall(run, t)
    ensures FreshWhenCalled(run, t) || StoredInTime(run, t)
  {
    FieldFreshIff(run, t);
    match run
    case Begin(_) =>
    case Extend(prior, via, s) =>
      if via.Act? && via.t == t {
        if Succeeded(prior.s.At(t)) {
          SuccessSawFieldFresh(prior, t);
        } else {
          FieldStep(prior.s, t, via.action, s);
        }
      } else {
        if via.Act? {
          OthersStay(prior.s, via.t, via.action, s);
        }
        SuccessSawFieldFresh(prior, t);
      }
  }

  // ----- refreshes over whole runs -----

  /** The instants at which fetchedAt was set, in order. */
  ghost function Stamps(run: Run): seq<int> {
    match run
    case Begin(_) => []
    case Extend(prior, via, s) =>
      if via.Act? && via.action.Stamp? then Stamps(prior) + [s.fetchedAt] else Stamps(prior)
  }

  ghost predicate Spaced(times: seq<int>, gap: int) {
    forall i | 0 < i < |times| :: times[i] - times[i - 1] >= gap
  }

  /** Successive successful refreshes are at least ttl apart, however the goroutines interleave. */
  lemma {:induction false} RefreshesAreSpaced(run: Run)
    requires Valid(run)
    ensures Spaced(Stamps(run), run.s.ttl)
    ensures Stamps(run) != [] ==> Stamps(run)[|Stamps(run)| - 1] == run.s.fetchedAt
    ensures Stamps(run) == [] ==> run.s.fetchedAt == ZERO_TIME
  {
    match run
    case Begin(_) =>
    case Extend(prior, via, s) =>
      RefreshesAreSpaced(prior);
      InvHolds(prior);
      TtlStays(prior.s, via, s);
      StampMonotone(prior.s, via, s);
      if via.Act? && via.action.Stamp? {
        assert prior.s.At(via.t).Stamped?;
        SpacedAppend(Stamps(prior), prior.s.ttl, s.fetchedAt);
      }
  }

  lemma StaleStep(s: State, t: Tid, action: Action, s': State)
    requires Perform(s, t, action) == Some(s') && !action.Stamp?
    requires !s.IsFresh() && !Succeeded(s.At(t))
    ensures !Succeeded(s'.At(t))
  {}

  lemma {:induction false} UnstampedIsStale(run: Run, t: Tid)
    requires Valid(run) && Stamps(run) == []
    ensures run.s.fetchedAt == ZERO_TIME && run.s.now - ZERO_TIME > MAX_DURATION && run.s.ttl <= MAX_DURATION
    ensures !Succeeded(run.s.At(t))
  {
    match run
    case Begin(_) =>
    case Extend(prior, via, s) =>
      UnstampedIsStale(prior, t);
      InvHolds(prior);
      StampMonotone(prior.s, via, s);
      TtlStays(prior.s, via, s);
      if via.Act? && via.t == t {
        StaleStep(prior.s, t, via.action, s);
      } else if via.Act? {
        OthersStay(prior.s, via.t, via.action, s);
      }
  }

  /** No refresh returns a nil error before some fetch has completed. */
  lemma SuccessNeedsFetch(run: Run, t: Tid)
    requires Valid(run) && Succeeded(run.s.At(t))
    ensures Stamps(run) != []
  {
    if Stamps(run) == [] {
      UnstampedIsStale(run, t);
    }
  }

  lemma SpacedAppend(times: seq<int>, gap: int, t: int)
    requires Spaced(times, gap)
    requires times != [] ==> t - times[|times| - 1] >= gap
    ensures Spaced(times + [t], gap)
  {
    var all := times + [t];
    forall i | 0 < i < |all| ensures all[i] - all[i - 1] >= gap {
      assert i < |times| ==> times[i] - times[i - 1] >= gap;
    }
  }

  function CountWithin(times: seq<int>, from: int, to: int): nat {
    if times == [] then 0
    else CountWithin(times[..|times| - 1], from, to) + if from <= times[|times| - 1] <= to then 1 else 0
  }

  lemma {:induction false} SpacedCount(times: seq<int>, gap: int, from: int, to: int)
    requires gap > 0 && from <= to && Spaced(times, gap)
    ensures var n := CountWithin(times, from, to);
            n > 0 ==> (n - 1) * gap <= to - from && (n - 1) * gap <= times[|times| - 1] - from
  {
    if times != [] {
      var last := |times| - 1;
      var prefix := times[..last];
      assert Spaced(prefix, gap) by {
        forall i | 0 < i < |prefix| ensures prefix[i] - prefix[i - 1] >= gap {
          assert times[i] - times[i - 1] >= gap;
        }
      }
      SpacedCount(prefix, gap, from, to);
      var m := CountWithin(prefix, from, to);
      assert m > 0 ==> m * gap == (m - 1) * gap + gap;
    }
  }

  lemma QuotientBound(n: nat, gap: int, length: int)
    requires gap > 0 && length >= 0 && n > 0 && (n - 1) * gap <= length
    ensures n <= 1 + length / gap
  {
    assert length < (length / gap + 1) * gap;
  }

  lemma SpacedBound(times: seq<int>, gap: int, from: int, length: nat)
    requires gap > 0 && Spaced(times, gap)
    ensures CountWithin(times, from, from + length) <= 1 + length / gap
  {
    SpacedCount(times, gap, from, from + length);
    var n := CountWithin(times, from, from + length);
    if n > 0 {
      QuotientBound(n, gap, length);
    }
  }

  /** Any interval of length L holds at most 1 + floor(L / ttl) successful refreshes. */
  lemma RefreshBound(run: Run, from: int, length: nat)
    requires Valid(run) && run.s.ttl > 0
    ensures CountWithin(Stamps(run), from, from + length) <= 1 + length / run.s.ttl
  {
    RefreshesAreSpaced(run);
    SpacedBound(Stamps(run), run.s.ttl, from, length);
  }

  // ----- runs that show what does not hold -----

  /** A state between calls: no lock held, goroutine t idle. */
  ghost predicate AtRest(s: State, t: Tid) {
    s.readers == {} && s.writer.None? && s.At(t) == Idle
  }

  lemma ExtendBy(run: Run, t: Tid, action: Action) returns (next: Run)
    requires Valid(run) && Perform(run.s, t, action).Some?
    ensures Valid(next) && Perform(run.s, t, action) == Some(next.s)
    ensures next.s.ttl == run.s.ttl && next.s.now == run.s.now
    ensures Stamps(next) == if action.Stamp? then Stamps(run) + [next.s.fetchedAt] else Stamps(run)
  {
    next := Extend(run, Act(t, action), Perform(run.s, t, action).value);
  }

  lemma FindStale(run: Run, t: Tid) returns (next: Run)
    requires Valid(run) && AtRest(run.s, t) && !run.s.IsFresh()
    ensures Valid(next) && Stamps(next) == Stamps(run)
    ensures next.s.At(t) == Checked(false) && next.s.readers == {t} && next.s.writer.None? && !next.s.IsFresh()
    ensures next.s.ttl == run.s.ttl && next.s.now == run.s.now
  {
    next := ExtendBy(run, t, CallRefresh);
    assert next.s.At(t) == CheckWait;
    next := ExtendBy(next, t, AcquireRead);
    assert next.s.At(t) == Checking;
    next := ExtendBy(next, t, CheckAge);
  }

  lemma ReachWriteLock(run: Run, t: Tid) returns (next: Run)
    requires Valid(run) && AtRest(run.s, t) && !run.s.IsFresh()
    ensures Valid(next) && Stamps(next) == Stamps(run)
    ensures next.s.At(t).Rechecking? && next.s.readers == {} && !next.s.IsFresh()
    ensures next.s.ttl == run.s.ttl && next.s.now == run.s.now
  {
    next := FindStale(run, t);
    next := ExtendBy(next, t, ReleaseRead);
    assert next.s.At(t) == LockWait && next.s.readers == {};
    next := ExtendBy(next, t, AcquireWrite);
  }

  lemma FetchUnderLock(run: Run, t: Tid, fetched: Keys) returns (next: Run)
    requires Valid(run) && run.s.At(t).Rechecking? && run.s.readers == {} && !run.s.IsFresh()
    ensures Valid(next) && next.s.At(t).Stamping? && next.s.readers == {}
    ensures Stamps(next) == Stamps(run) && next.s.ttl == run.s.ttl && next.s.now == run.s.now
  {
    next := ExtendBy(run, t, Recheck);
    assert next.s.At(t) == Fetching;
    next := ExtendBy(next, t, FetchReturns(fetched));
    assert next.s.At(t) == Storing(fetched);
    next := ExtendBy(next, t, StoreKeys);
  }

  lemma {:induction false} UnstampedNeverFresh(run: Run, t: Tid)
    requires Valid(run) && Stamps(run) == []
    ensures !FieldFreshDuringCall(run, t)
  {
    UnstampedIsStale(run, t);
    if run.Extend? {
      UnstampedNeverFresh(run.prior, t);
    }
  }

  lemma FirstFetch(ttl: int, t: Tid) returns (run: Run)
    requires MIN_DURATION <= ttl <= MAX_DURATION
    ensures Valid(run) && run.s.ttl == ttl && Stamps(run) == []
    ensures run.s.At(t).Stamping?
  {
    run := Begin(State(ttl, MAX_DURATION + 1, map[], ZERO_TIME, {}, None, map[]));
    run := ReachWriteLock(run, t);
    run := FetchUnderLock(run, t, map[]);
  }

  lemma StampLate(run: Run, t: Tid) returns (next: Run)
    requires Valid(run) && Stamps(run) == [] && run.s.At(t).Stamping? && run.s.ttl > 0
    ensures Valid(next) && next.s.ttl == run.s.ttl
    ensures Succeeded(next.s.At(t)) && !FieldFreshDuringCall(next, t)
  {
    var read := ExtendBy(run, t, ReadClock);
    var late := Extend(read, Tick(run.s.ttl), read.s.(now := read.s.now + run.s.ttl));
    assert late.s.At(t).Stamped? && late.s.At(t).at == run.s.now;
    UnstampedNeverFresh(late, t);
    next := Extend(late, Act(t, Stamp), Perform(late.s, t, Stamp).value);
  }

  /** Whatever the positive ttl, a call can succeed without fetchedAt having been fresh at any
      moment inside it: by waiting for ttl between reading the clock and storing the reading. */
  lemma LateStore(ttl: int, t: Tid) returns (run: Run)
    requires 0 < ttl <= MAX_DURATION
    ensures Valid(run) && run.s.ttl == ttl
    ensures Succeeded(run.s.At(t)) && !FieldFreshDuringCall(run, t)
    ensures StoredLate(run, t) && !FreshWhenCalled(run, t) && !StoredInTime(run, t)
  {
    var fetching := FirstFetch(ttl, t);
    run := StampLate(fetching, t);
    FieldFreshIff(run, t);
    if !StoredLate(run, t) {
      SuccessSawFieldFresh(run, t);
    }
  }

  lemma StampUnderLock(run: Run, t: Tid) returns (next: Run)
    requires Valid(run) && run.s.At(t).Stamping?
    ensures Valid(next) && next.s.At(t) == Unlocking(Ready) && next.s.readers == run.s.readers
    ensures Stamps(next) == Stamps(run) + [run.s.now] && next.s.ttl == run.s.ttl && next.s.now == run.s.now
  {
    next := ExtendBy(run, t, ReadClock);
    assert next.s.At(t).Stamped? && next.s.At(t).at == run.s.now;
    next := ExtendBy(next, t, Stamp);
  }

  lemma LeaveLock(run: Run, t: Tid) returns (next: Run)
    requires Valid(run) && run.s.At(t) == Unlocking(Ready) && run.s.readers == {}
    ensures Valid(next) && AtRest(next.s, t)
    ensures Stamps(next) == Stamps(run) && next.s.ttl == run.s.ttl && next.s.now == run.s.now
  {
    next := ExtendBy(run, t, ReleaseWrite);
    assert next.s.At(t) == Replying(Ready);
    assert next.s.writer.None? && next.s.readers == {};
    next := ExtendBy(next, t, ReturnRefresh(Ready));
  }

  /** A call never skips its fetch when ttl is not positive. */
  lemma NothingSkipped(run: Run, l: Label)
    requires Valid(run) && run.s.ttl <= 0
    ensures match Effect(run.s, l)
            case Some((_, Refreshed(fetched, reply))) => fetched.FetchOk? || reply == Failed
            case _ => true
  {
    InvHolds(run);
  }

  lemma RefreshOnce(run: Run, t: Tid) returns (next: Run)
    requires Valid(run) && AtRest(run.s, t) && run.s.ttl <= 0
    ensures Valid(next) && AtRest(next.s, t)
    ensures Stamps(next) == Stamps(run) + [run.s.now] && next.s.ttl == run.s.ttl && next.s.now == run.s.now
  {
    assert !run.s.IsFresh() by { InvHolds(run); }
    next := ReachWriteLock(run, t);
    next := FetchUnderLock(next, t, map[]);
    next := StampUnderLock(next, t);
    next := LeaveLock(next, t);
  }

  lemma CountAppend(times: seq<int>, t: int, at: int)
    ensures CountWithin(times + [t], at, at) == CountWithin(times, at, at) + if t == at then 1 else 0
  {
    assert (times + [t])[..|times|] == times;
  }

  lemma {:induction false} ManyRefreshes(ttl: int, n: nat) returns (run: Run)
    requires MIN_DURATION <= ttl <= 0
    ensures Valid(run) && run.s.ttl == ttl && AtRest(run.s, 0)
    ensures CountWithin(Stamps(run), run.s.now, run.s.now) == n
  {
    if n == 0 {
      run := Begin(State(ttl, MAX_DURATION + 1, map[], ZERO_TIME, {}, None, map[]));
    } else {
      var prior := ManyRefreshes(ttl, n - 1);
      run := RefreshOnce(prior, 0);
      CountAppend(Stamps(prior), prior.s.now, prior.s.now);
    }
  }

  ghost predicate BoundsRefreshes(ttl: int, bound: nat) {
    forall run: Run, at: int | Valid(run) && run.s.ttl == ttl :: CountWithin(Stamps(run), at, at) <= bound
  }

  /** The number of refreshes of one instant has a bound exactly when ttl is positive. */
  lemma BoundedIffPositive(ttl: int)
    requires MIN_DURATION <= ttl <= MAX_DURATION
    ensures (exists bound: nat :: BoundsRefreshes(ttl, bound)) <==> ttl > 0
  {
    if ttl > 0 {
      forall run: Run, at: int | Valid(run) && run.s.ttl == ttl ensures CountWithin(Stamps(run), at, at) <= 1 {
        RefreshBound(run, at, 0);
      }
      assert BoundsRefreshes(ttl, 1);
    } else {
      forall bound: nat ensures !BoundsRefreshes(ttl, bound) {
        var run := ManyRefreshes(ttl, bound + 1);
      }
    }
  }

  // ----- no call goes on for ever -----

  /** The most steps a goroutine can still take before its call returns. */
  function StepsLeft(pc: Pc): nat {
    match pc
    case Idle => 0
    case CheckWait => 11
    case Checking => 10
    case Checked(_) => 9
    case LockWait => 8
    case Rechecking => 7
    case Fetching => 6
    case Storing(_) => 5
    case Stamping(_, _) => 4
    case Stamped(_, _) => 3
    case Unlocking(_) => 2
    case Replying(_) => 1
    case LookupWait(_) => 4
    case Looking(_) => 3
    case Looked(_) => 2
    case Answering(_) => 1
  }

  /** The steps a goroutine has taken since it was last idle. */
  ghost function StepsTaken(run: Run, t: Tid): nat {
    match run
    case Begin(_) => 0
    case Extend(prior, via, s) =>
      if s.At(t) == Idle then 0
      else if via.Act? && via.t == t then StepsTaken(prior, t) + 1
      else StepsTaken(prior, t)
  }

  lemma PerformProgresses(s: State, t: Tid, action: Action, s': State)
    requires Perform(s, t, action) == Some(s')
    ensures if s.At(t) == Idle then StepsLeft(s'.At(t)) <= 11 else StepsLeft(s'.At(t)) < StepsLeft(s.At(t))
  {}

  /** A call takes at most twelve steps of its own, the call included: with NoDeadlock, calls
      under way all return once no new ones are made, if requests are answered. */
  lemma {:induction false} CallIsShort(run: Run, t: Tid)
    requires Valid(run)
    ensures StepsTaken(run, t) + StepsLeft(run.s.At(t)) <= 12
    ensures run.s.At(t) == Idle ==> StepsTaken(run, t) == 0
  {
    match run
    case Begin(_) =>
    case Extend(prior, via, s) =>
      CallIsShort(prior, t);
      if via.Act? {
        if via.t == t {
          PerformProgresses(prior.s, t, via.action, s);
        } else {
          OthersStay(prior.s, via.t, via.action, s);
        }
      }
  }
}
