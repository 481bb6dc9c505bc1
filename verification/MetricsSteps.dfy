/** Concurrent exchange requests over the shared counters: every increment and observation of
    middleware and handler is a step of its own, and requests interleave freely.

    A labelled counter (or the count of a labelled histogram) is the multiset of the labels it was
    incremented with, so its value for a label is a multiplicity and its total a cardinality. */
module MetricsSteps {
  import opened Sequences
  import opened Exchange
  import opened Adapters
  import C = Canonical

  const SUCCESS := "success"
  const ERROR := "error"
  const UNKNOWN := "unknown"

  type RequestLabel = (string, string)

  datatype Counters = Counters(active: int, requestDuration: multiset<RequestLabel>, requestTotal: multiset<RequestLabel>,
                               adapterDuration: multiset<string>, mintDuration: nat, issued: multiset<(string, string)>)

  const ZERO := Counters(0, multiset{}, multiset{}, multiset{}, 0, multiset{})

  /** The points of a request between two touches of the counters. */
  datatype Pc =
    | Entered          // gauge incremented, request being checked
    | Resolving        // request accepted
    | Exchanging       // adapter resolved and noted on the status writer
    | ExchangeDone     // adapter duration observed
    | Minting          // adapter exchange succeeded
    | MintDone         // mint duration observed
    | TokenIssued      // issued counter incremented
    | Handled          // handler returned, status final
    | DurationObserved // request duration observed
    | Totalled         // request counter incremented
    | Finished         // gauge decremented

  datatype Req = Req(journey: Journey, pc: Pc)

  datatype State = State(counters: Counters, reqs: seq<Req>)

  /** The adapter and status labels the middleware derives from the status writer. */
  function LabelOf(j: Journey): RequestLabel {
    (if j.adapter.Some? then j.adapter.value else UNKNOWN, if j.minted then SUCCESS else ERROR)
  }

  function AdapterName(j: Journey): string { if j.adapter.Some? then j.adapter.value else "" }

  /** The labels of the issued counter: trust level and auth method. */
  function IssuedLabel(j: Journey): (string, string) {
    if j.claims.Some? then (j.claims.value.trustLevel, j.claims.value.authMethod) else ("", "")
  }

  function NextPc(r: Req): Pc
    requires ValidJourney(r.journey) && r.pc != Finished
  {
    match r.pc
    case Entered => if r.journey.refusal.Some? then Handled else Resolving
    case Resolving => if r.journey.adapter.None? then Handled else Exchanging
    case Exchanging => ExchangeDone
    case ExchangeDone => if r.journey.claims.None? then Handled else Minting
    case Minting => MintDone
    case MintDone => if r.journey.minted then TokenIssued else Handled
    case TokenIssued => Handled
    case Handled => DurationObserved
    case DurationObserved => Totalled
    case Totalled => Finished
  }

  function NextReq(r: Req): Req
    requires ValidJourney(r.journey) && r.pc != Finished
  {
    Req(r.journey, NextPc(r))
  }

  /** Can a request with this journey stand at this point? */
  predicate OnPath(r: Req) {
    && ValidJourney(r.journey)
    && (r.pc.Resolving? ==> r.journey.refusal.None?)
    && (r.pc.Exchanging? || r.pc.ExchangeDone? ==> r.journey.adapter.Some?)
    && (r.pc.Minting? || r.pc.MintDone? ==> r.journey.claims.Some?)
    && (r.pc.TokenIssued? ==> r.journey.minted)
  }

  function When<L>(b: bool, l: L): multiset<L> { if b then multiset{l} else multiset{} }

  predicate Issues(r: Req) { r.pc.MintDone? && r.journey.minted }

  /** What leaving a point does to the counters. */
  function Touch(c: Counters, r: Req): Counters {
    Counters(
      if r.pc.Totalled? then c.active - 1 else c.active,
      c.requestDuration + When(r.pc.Handled?, LabelOf(r.journey)),
      c.requestTotal + When(r.pc.DurationObserved?, LabelOf(r.journey)),
      c.adapterDuration + When(r.pc.Exchanging?, AdapterName(r.journey)),
      if r.pc.Minting? then c.mintDuration + 1 else c.mintDuration,
      c.issued + When(Issues(r), IssuedLabel(r.journey)))
  }

  datatype Action = Arrive(journey: Journey) | Advance(i: nat)

  predicate Enabled(s: State, a: Action) {
    match a
    case Arrive(j) => ValidJourney(j)
    case Advance(i) => i < |s.reqs| && OnPath(s.reqs[i]) && s.reqs[i].pc != Finished
  }

  function Step(s: State, a: Action): State
    requires Enabled(s, a)
  {
    match a
    case Arrive(j) => State(s.counters.(active := s.counters.active + 1), s.reqs + [Req(j, Entered)])
    case Advance(i) =>
      var r := s.reqs[i];
      State(Touch(s.counters, r), s.reqs[i := NextReq(r)])
  }

  /** A run from the idle service, one action at a time; every interleaving of every set of
      requests is one. */
  datatype Run = Begin(s: State) | Extend(prior: Run, via: Action, s: State)

  ghost predicate Valid(run: Run) {
    match run
    case Begin(s) => s == State(ZERO, [])
    case Extend(prior, via, s) => Valid(prior) && Enabled(prior.s, via) && s == Step(prior.s, via)
  }

  // ----- what each request has added so far -----

  predicate InFlight(r: Req) { r.pc != Finished }

  predicate PastObservation(r: Req) { r.pc.DurationObserved? || r.pc.Totalled? || r.pc.Finished? }

  predicate PastTotal(r: Req) { r.pc.Totalled? || r.pc.Finished? }

  predicate PastHandler(r: Req) { r.pc.Handled? || PastObservation(r) }

  predicate AdapterObserved(r: Req) {
    if PastHandler(r) then r.journey.adapter.Some?
    else r.pc.ExchangeDone? || r.pc.Minting? || r.pc.MintDone? || r.pc.TokenIssued?
  }

  predicate MintObserved(r: Req) {
    if PastHandler(r) then r.journey.claims.Some? else r.pc.MintDone? || r.pc.TokenIssued?
  }

  predicate HasIssued(r: Req) {
    if PastHandler(r) then r.journey.minted else r.pc.TokenIssued?
  }

  function ActiveOf(r: Req): multiset<()> { When(InFlight(r), ()) }

  function DurationOf(r: Req): multiset<RequestLabel> { When(PastObservation(r), LabelOf(r.journey)) }

  function TotalOf(r: Req): multiset<RequestLabel> { When(PastTotal(r), LabelOf(r.journey)) }

  function AdapterOf(r: Req): multiset<string> { When(AdapterObserved(r), AdapterName(r.journey)) }

  function MintOf(r: Req): multiset<()> { When(MintObserved(r), ()) }

  function IssuedOf(r: Req): multiset<(string, string)> { When(HasIssued(r), IssuedLabel(r.journey)) }

  /** All requests' contributions together. */
  function Gather<L>(reqs: seq<Req>, f: Req -> multiset<L>): multiset<L> {
    if reqs == [] then multiset{} else Gather(reqs[..|reqs| - 1], f) + f(reqs[|reqs| - 1])
  }

  lemma GatherAppend<L>(reqs: seq<Req>, r: Req, f: Req -> multiset<L>)
    ensures Gather(reqs + [r], f) == Gather(reqs, f) + f(r)
  {
    assert (reqs + [r])[..|reqs|] == reqs;
  }

  lemma {:induction false} GatherUpdate<L>(reqs: seq<Req>, i: nat, r: Req, f: Req -> multiset<L>, added: multiset<L>)
    requires i < |reqs|
    requires f(r) == f(reqs[i]) + added
    ensures Gather(reqs[i := r], f) == Gather(reqs, f) + added
  {
    var n := |reqs| - 1;
    if i == n {
      assert reqs[i := r][..n] == reqs[..n];
    } else {
      GatherUpdate(reqs[..n], i, r, f, added);
      assert reqs[i := r][..n] == reqs[..n][i := r];
    }
  }

  /** Every counter is what the requests have added to it. */
  ghost predicate Accounted(s: State) {
    && OnPaths(s.reqs)
    && s.counters.active == |Gather(s.reqs, ActiveOf)|
    && s.counters.requestDuration == Gather(s.reqs, DurationOf)
    && s.counters.requestTotal == Gather(s.reqs, TotalOf)
    && s.counters.adapterDuration == Gather(s.reqs, AdapterOf)
    && s.counters.mintDuration == |Gather(s.reqs, MintOf)|
    && s.counters.issued == Gather(s.reqs, IssuedOf)
  }

  ghost predicate OnPaths(reqs: seq<Req>) {
    forall i | 0 <= i < |reqs| :: OnPath(reqs[i])
  }

  lemma ArriveKeeps(s: State, j: Journey)
    requires Accounted(s) && ValidJourney(j)
    ensures Accounted(State(s.counters.(active := s.counters.active + 1), s.reqs + [Req(j, Entered)]))
  {
    var r := Req(j, Entered);
    var after := State(s.counters.(active := s.counters.active + 1), s.reqs + [r]);
    ArriveOnPaths(s.reqs, r);
    assert after.counters.active == |Gather(after.reqs, ActiveOf)| by { GatherAppend(s.reqs, r, ActiveOf); }
    assert after.counters.requestDuration == Gather(after.reqs, DurationOf) by { AppendNothing(s.reqs, r, DurationOf); }
    assert after.counters.requestTotal == Gather(after.reqs, TotalOf) by { AppendNothing(s.reqs, r, TotalOf); }
    assert after.counters.adapterDuration == Gather(after.reqs, AdapterOf) by { AppendNothing(s.reqs, r, AdapterOf); }
    assert after.counters.mintDuration == |Gather(after.reqs, MintOf)| by { AppendNothing(s.reqs, r, MintOf); }
    assert after.counters.issued == Gather(after.reqs, IssuedOf) by { AppendNothing(s.reqs, r, IssuedOf); }
  }

  lemma ArriveOnPaths(reqs: seq<Req>, r: Req)
    requires OnPaths(reqs) && OnPath(r)
    ensures OnPaths(reqs + [r])
  {}

  lemma AppendNothing<L>(reqs: seq<Req>, r: Req, f: Req -> multiset<L>)
    requires f(r) == multiset{}
    ensures Gather(reqs + [r], f) == Gather(reqs, f)
  {
    GatherAppend(reqs, r, f);
  }

  lemma StaysOnPath(r: Req)
    requires OnPath(r) && r.pc != Finished
    ensures OnPath(NextReq(r))
  {}

  lemma WhenEither<L>(a: bool, b: bool, l: L)
    requires !(a && b)
    ensures When(a || b, l) == When(a, l) + When(b, l)
  {}

  /** Leaving a point passes the milestone that point stands before, and no other. */
  lemma Milestones(r: Req)
    requires OnPath(r) && r.pc != Finished
    ensures PastObservation(NextReq(r)) <==> PastObservation(r) || r.pc.Handled?
    ensures PastTotal(NextReq(r)) <==> PastTotal(r) || r.pc.DurationObserved?
    ensures InFlight(r) <==> InFlight(NextReq(r)) || r.pc.Totalled?
    ensures !InFlight(NextReq(r)) || !r.pc.Totalled?
  {}

  lemma HandlerMilestones(r: Req)
    requires OnPath(r) && r.pc != Finished
    ensures AdapterObserved(NextReq(r)) <==> AdapterObserved(r) || r.pc.Exchanging?
    ensures MintObserved(NextReq(r)) <==> MintObserved(r) || r.pc.Minting?
    ensures HasIssued(NextReq(r)) <==> HasIssued(r) || Issues(r)
    ensures !(AdapterObserved(r) && r.pc.Exchanging?) && !(MintObserved(r) && r.pc.Minting?) && !(HasIssued(r) && Issues(r))
  {}

  lemma DurationStep(reqs: seq<Req>, i: nat)
    requires i < |reqs| && OnPath(reqs[i]) && reqs[i].pc != Finished
    ensures Gather(reqs[i := NextReq(reqs[i])], DurationOf) == Gather(reqs, DurationOf) + When(reqs[i].pc.Handled?, LabelOf(reqs[i].journey))
  {
    Milestones(reqs[i]);
    WhenEither(PastObservation(reqs[i]), reqs[i].pc.Handled?, LabelOf(reqs[i].journey));
    GatherUpdate(reqs, i, NextReq(reqs[i]), DurationOf, When(reqs[i].pc.Handled?, LabelOf(reqs[i].journey)));
  }

  lemma TotalStep(reqs: seq<Req>, i: nat)
    requires i < |reqs| && OnPath(reqs[i]) && reqs[i].pc != Finished
    ensures Gather(reqs[i := NextReq(reqs[i])], TotalOf) == Gather(reqs, TotalOf) + When(reqs[i].pc.DurationObserved?, LabelOf(reqs[i].journey))
  {
    Milestones(reqs[i]);
    WhenEither(PastTotal(reqs[i]), reqs[i].pc.DurationObserved?, LabelOf(reqs[i].journey));
    GatherUpdate(reqs, i, NextReq(reqs[i]), TotalOf, When(reqs[i].pc.DurationObserved?, LabelOf(reqs[i].journey)));
  }

  lemma AdapterStep(reqs: seq<Req>, i: nat)
    requires i < |reqs| && OnPath(reqs[i]) && reqs[i].pc != Finished
    ensures Gather(reqs[i := NextReq(reqs[i])], AdapterOf) == Gather(reqs, AdapterOf) + When(reqs[i].pc.Exchanging?, AdapterName(reqs[i].journey))
  {
    HandlerMilestones(reqs[i]);
    WhenEither(AdapterObserved(reqs[i]), reqs[i].pc.Exchanging?, AdapterName(reqs[i].journey));
    GatherUpdate(reqs, i, NextReq(reqs[i]), AdapterOf, When(reqs[i].pc.Exchanging?, AdapterName(reqs[i].journey)));
  }

  lemma MintStep(reqs: seq<Req>, i: nat)
    requires i < |reqs| && OnPath(reqs[i]) && reqs[i].pc != Finished
    ensures Gather(reqs[i := NextReq(reqs[i])], MintOf) == Gather(reqs, MintOf) + When(reqs[i].pc.Minting?, ())
  {
    HandlerMilestones(reqs[i]);
    WhenEither(MintObserved(reqs[i]), reqs[i].pc.Minting?, ());
    GatherUpdate(reqs, i, NextReq(reqs[i]), MintOf, When(reqs[i].pc.Minting?, ()));
  }

  lemma IssuedStep(reqs: seq<Req>, i: nat)
    requires i < |reqs| && OnPath(reqs[i]) && reqs[i].pc != Finished
    ensures Gather(reqs[i := NextReq(reqs[i])], IssuedOf) == Gather(reqs, IssuedOf) + When(Issues(reqs[i]), IssuedLabel(reqs[i].journey))
  {
    HandlerMilestones(reqs[i]);
    WhenEither(HasIssued(reqs[i]), Issues(reqs[i]), IssuedLabel(reqs[i].journey));
    GatherUpdate(reqs, i, NextReq(reqs[i]), IssuedOf, When(Issues(reqs[i]), IssuedLabel(reqs[i].journey)));
  }

  lemma ActiveStep(reqs: seq<Req>, i: nat)
    requires i < |reqs| && OnPath(reqs[i]) && reqs[i].pc != Finished
    ensures |Gather(reqs[i := NextReq(reqs[i])], ActiveOf)|
            == |Gather(reqs, ActiveOf)| - if reqs[i].pc.Totalled? then 1 else 0
  {
    var after := reqs[i := NextReq(reqs[i])];
    Milestones(reqs[i]);
    WhenEither(InFlight(NextReq(reqs[i])), reqs[i].pc.Totalled?, ());
    GatherUpdate(after, i, reqs[i], ActiveOf, When(reqs[i].pc.Totalled?, ()));
    assert after[i := reqs[i]] == reqs;
  }

  lemma AdvanceKeeps(s: State, i: nat)
    requires Accounted(s) && Enabled(s, Advance(i))
    ensures Accounted(Step(s, Advance(i)))
  {
    var after := Step(s, Advance(i));
    assert OnPaths(after.reqs) by { StaysOnPath(s.reqs[i]); }
    assert after.counters.active == |Gather(after.reqs, ActiveOf)| by { ActiveStep(s.reqs, i); }
    assert after.counters.requestDuration == Gather(after.reqs, DurationOf) by { DurationStep(s.reqs, i); }
    assert after.counters.requestTotal == Gather(after.reqs, TotalOf) by { TotalStep(s.reqs, i); }
    assert after.counters.adapterDuration == Gather(after.reqs, AdapterOf) by { AdapterStep(s.reqs, i); }
    assert after.counters.mintDuration == |Gather(after.reqs, MintOf)| by { MintStep(s.reqs, i); }
    assert after.counters.issued == Gather(after.reqs, IssuedOf) by { IssuedStep(s.reqs, i); }
  }

  lemma {:induction false} RunIsAccounted(run: Run)
    requires Valid(run)
    ensures Accounted(run.s)
  {
    match run
    case Begin(_) =>
    case Extend(prior, Arrive(j), _) =>
      RunIsAccounted(prior);
      ArriveKeeps(prior.s, j);
    case Extend(prior, Advance(i), _) =>
      RunIsAccounted(prior);
      AdvanceKeeps(prior.s, i);
  }

  // ----- the conservation laws -----

  function Count(reqs: seq<Req>, p: Req -> bool): nat {
    if reqs == [] then 0 else Count(reqs[..|reqs| - 1], p) + if p(reqs[|reqs| - 1]) then 1 else 0
  }

  lemma {:induction false} GatherSize<L>(reqs: seq<Req>, f: Req -> multiset<L>, p: Req -> bool)
    requires forall r: Req :: |f(r)| == if p(r) then 1 else 0
    ensures |Gather(reqs, f)| == Count(reqs, p)
  {
    if reqs != [] {
      GatherSize(reqs[..|reqs| - 1], f, p);
    }
  }

  lemma {:induction false} CountMonotone(reqs: seq<Req>, p: Req -> bool, q: Req -> bool)
    requires forall i | 0 <= i < |reqs| :: p(reqs[i]) ==> q(reqs[i])
    ensures Count(reqs, p) <= Count(reqs, q)
  {
    if reqs != [] {
      CountMonotone(reqs[..|reqs| - 1], p, q);
    }
  }

  lemma {:induction false} CountSplit(reqs: seq<Req>, p: Req -> bool, a: Req -> bool, b: Req -> bool)
    requires forall i | 0 <= i < |reqs| :: (p(reqs[i]) <==> a(reqs[i]) || b(reqs[i])) && !(a(reqs[i]) && b(reqs[i]))
    ensures Count(reqs, p) == Count(reqs, a) + Count(reqs, b)
  {
    if reqs != [] {
      CountSplit(reqs[..|reqs| - 1], p, a, b);
    }
  }

  predicate IsFinished(r: Req) { r.pc.Finished? }

  predicate Arrived(r: Req) { true }

  lemma {:induction false} CountArrived(reqs: seq<Req>)
    ensures Count(reqs, Arrived) == |reqs|
  {
    if reqs != [] {
      CountArrived(reqs[..|reqs| - 1]);
    }
  }

  lemma SizesAreCounts(reqs: seq<Req>)
    ensures |Gather(reqs, ActiveOf)| == Count(reqs, InFlight)
    ensures |Gather(reqs, DurationOf)| == Count(reqs, PastObservation)
    ensures |Gather(reqs, TotalOf)| == Count(reqs, PastTotal)
    ensures |Gather(reqs, AdapterOf)| == Count(reqs, AdapterObserved)
    ensures |Gather(reqs, MintOf)| == Count(reqs, MintObserved)
    ensures |Gather(reqs, IssuedOf)| == Count(reqs, HasIssued)
  {
    GatherSize(reqs, ActiveOf, InFlight);
    GatherSize(reqs, DurationOf, PastObservation);
    GatherSize(reqs, TotalOf, PastTotal);
    GatherSize(reqs, AdapterOf, AdapterObserved);
    GatherSize(reqs, MintOf, MintObserved);
    GatherSize(reqs, IssuedOf, HasIssued);
  }

  /** In every reachable state the gauge is the number of requests in flight, and started =
      active + finished. */
  lemma GaugeLaw(run: Run)
    requires Valid(run)
    ensures var s := run.s;
            && s.counters.active == Count(s.reqs, InFlight)
            && |s.reqs| == s.counters.active + Count(s.reqs, IsFinished)
  {
    var s := run.s;
    RunIsAccounted(run);
    SizesAreCounts(s.reqs);
    CountArrived(s.reqs);
    CountSplit(s.reqs, Arrived, InFlight, IsFinished);
  }

  /** The label a request that is between its duration observation and its total leaves open. */
  function BetweenOf(r: Req): multiset<RequestLabel> { When(r.pc.DurationObserved?, LabelOf(r.journey)) }

  lemma {:induction false} DurationSplit(reqs: seq<Req>)
    ensures Gather(reqs, DurationOf) == Gather(reqs, TotalOf) + Gather(reqs, BetweenOf)
  {
    if reqs != [] {
      DurationSplit(reqs[..|reqs| - 1]);
    }
  }

  /** Label by label, the duration histogram has counted what the request counter has, plus the
      requests now between the two updates; the counter has one increment for each request that
      got past it. */
  lemma DurationAndTotalAgree(run: Run)
    requires Valid(run)
    ensures var s := run.s;
            && s.counters.requestDuration == s.counters.requestTotal + Gather(s.reqs, BetweenOf)
            && |s.counters.requestTotal| == Count(s.reqs, PastTotal)
  {
    var s := run.s;
    RunIsAccounted(run);
    SizesAreCounts(s.reqs);
    DurationSplit(s.reqs);
  }

  function SuccessTotal(m: multiset<RequestLabel>): nat {
    m[(TYPE_JWT, SUCCESS)] + m[(TYPE_SAML2, SUCCESS)] + m[(TYPE_HMAC, SUCCESS)] + m[(TYPE_OPAQUE, SUCCESS)]
  }

  predicate TotalledSuccess(r: Req) { PastTotal(r) && r.journey.minted }

  predicate IssuedNotTotalled(r: Req) { HasIssued(r) && !PastTotal(r) }

  lemma SuccessLabel(r: Req)
    requires OnPath(r)
    ensures SuccessTotal(TotalOf(r)) == if TotalledSuccess(r) then 1 else 0
    ensures TotalOf(r)[(UNKNOWN, SUCCESS)] == 0
  {
    TokenTypesDiffer();
    assert SUCCESS[0] != ERROR[0];
    if r.journey.minted {
      assert r.journey.adapter.value in TOKEN_TYPES;
    }
  }

  lemma {:induction false} SuccessesCounted(reqs: seq<Req>)
    requires OnPaths(reqs)
    ensures SuccessTotal(Gather(reqs, TotalOf)) == Count(reqs, TotalledSuccess)
    ensures Gather(reqs, TotalOf)[(UNKNOWN, SUCCESS)] == 0
  {
    if reqs != [] {
      SuccessesCounted(reqs[..|reqs| - 1]);
      SuccessLabel(reqs[|reqs| - 1]);
    }
  }

  /** Tokens issued are the successful completions plus the in-flight requests already past
      issuance; no completion without an adapter is a success. */
  lemma IssuedLaw(run: Run)
    requires Valid(run)
    ensures var s := run.s;
            && |s.counters.issued| == SuccessTotal(s.counters.requestTotal) + Count(s.reqs, IssuedNotTotalled)
            && s.counters.requestTotal[("unknown", "success")] == 0
  {
    var s := run.s;
    RunIsAccounted(run);
    SizesAreCounts(s.reqs);
    SuccessesCounted(s.reqs);
    CountSplit(s.reqs, HasIssued, TotalledSuccess, IssuedNotTotalled);
  }

  // ----- label by label -----

  predicate CountedUnder(r: Req, adapter: string, status: string) {
    && PastTotal(r)
    && adapter == (if r.journey.adapter.Some? then r.journey.adapter.value else "unknown")
    && status == (if r.journey.minted then "success" else "error")
  }

  predicate ObservedUnder(r: Req, adapter: string) {
    AdapterObserved(r) && r.journey.adapter == Some(adapter)
  }

  predicate IssuedUnder(r: Req, trustLevel: string, authMethod: string) {
    && HasIssued(r)
    && r.journey.claims.Some?
    && r.journey.claims.value.trustLevel == trustLevel && r.journey.claims.value.authMethod == authMethod
  }

  lemma {:induction false} LabelCount<L>(reqs: seq<Req>, f: Req -> multiset<L>, l: L, p: Req -> bool)
    requires forall i | 0 <= i < |reqs| :: f(reqs[i])[l] == if p(reqs[i]) then 1 else 0
    ensures Gather(reqs, f)[l] == Count(reqs, p)
  {
    if reqs != [] {
      LabelCount(reqs[..|reqs| - 1], f, l, p);
    }
  }

  /** The request counter's value for an adapter and a status is the number of requests past it
      that were resolved to the adapter ("unknown" if to none) and ended so. */
  lemma RequestLabelLaw(run: Run, adapter: string, status: string)
    requires Valid(run)
    ensures run.s.counters.requestTotal[(adapter, status)] == Count(run.s.reqs, (r: Req) => CountedUnder(r, adapter, status))
  {
    RunIsAccounted(run);
    LabelCount(run.s.reqs, TotalOf, (adapter, status), (r: Req) => CountedUnder(r, adapter, status));
  }

  /** The adapter histogram's count for an adapter is the number of requests whose exchange with it
      has been observed. */
  lemma AdapterLabelLaw(run: Run, adapter: string)
    requires Valid(run)
    ensures run.s.counters.adapterDuration[adapter] == Count(run.s.reqs, (r: Req) => ObservedUnder(r, adapter))
  {
    RunIsAccounted(run);
    LabelCount(run.s.reqs, AdapterOf, adapter, (r: Req) => ObservedUnder(r, adapter));
  }

  /** The issued counter's value for a trust level and an auth method is the number of requests
      past issuance whose claims have both. */
  lemma IssuedLabelLaw(run: Run, trustLevel: string, authMethod: string)
    requires Valid(run)
    ensures run.s.counters.issued[(trustLevel, authMethod)] == Count(run.s.reqs, (r: Req) => IssuedUnder(r, trustLevel, authMethod))
  {
    RunIsAccounted(run);
    LabelCount(run.s.reqs, IssuedOf, (trustLevel, authMethod), (r: Req) => IssuedUnder(r, trustLevel, authMethod));
  }

  // ----- tokens issued, by auth method -----

  /** A labelled counter summed over its other label, for one auth method. */
  ghost function WithMethod(issued: multiset<(string, string)>, authMethod: string): nat {
    if issued == multiset{} then 0
    else
      var l :| l in issued;
      WithMethod(issued - multiset{l}, authMethod) + if l.1 == authMethod then 1 else 0
  }

  lemma {:induction false} WithMethodAdd(issued: multiset<(string, string)>, l: (string, string), authMethod: string)
    ensures WithMethod(issued + multiset{l}, authMethod) == WithMethod(issued, authMethod) + if l.1 == authMethod then 1 else 0
    decreases |issued|
  {
    var all := issued + multiset{l};
    var x :| x in all && WithMethod(all, authMethod) == WithMethod(all - multiset{x}, authMethod) + if x.1 == authMethod then 1 else 0;
    if x == l {
      assert all - multiset{l} == issued;
    } else {
      var rest := issued - multiset{x};
      assert all - multiset{x} == rest + multiset{l};
      assert rest + multiset{x} == issued;
      WithMethodAdd(rest, l, authMethod);
      WithMethodAdd(rest, x, authMethod);
    }
  }

  predicate SamlNotTotalled(r: Req) { IssuedNotTotalled(r) && r.journey.adapter == Some(TYPE_SAML2) }

  predicate LegacyNotTotalled(r: Req) { IssuedNotTotalled(r) && r.journey.adapter != Some(TYPE_SAML2) }

  /** The successes of the adapters that issue under the legacy auth method. */
  function LegacySuccesses(m: multiset<RequestLabel>): nat {
    m[(TYPE_JWT, SUCCESS)] + m[(TYPE_HMAC, SUCCESS)] + m[(TYPE_OPAQUE, SUCCESS)]
  }

  lemma IssuedMethod(r: Req, issued: multiset<(string, string)>, authMethod: string)
    requires OnPath(r)
    ensures WithMethod(issued + IssuedOf(r), authMethod)
            == WithMethod(issued, authMethod) + if HasIssued(r) && MethodOf(AdapterName(r.journey)) == authMethod then 1 else 0
  {
    if HasIssued(r) {
      WithMethodAdd(issued, IssuedLabel(r.journey), authMethod);
    } else {
      assert issued + IssuedOf(r) == issued;
    }
  }

  lemma SuccessByMethod(r: Req)
    requires OnPath(r)
    ensures TotalOf(r)[(TYPE_SAML2, SUCCESS)] == if TotalledSuccess(r) && r.journey.adapter == Some(TYPE_SAML2) then 1 else 0
    ensures LegacySuccesses(TotalOf(r)) == if TotalledSuccess(r) && r.journey.adapter != Some(TYPE_SAML2) then 1 else 0
  {
    TokenTypesDiffer();
    assert SUCCESS[0] != ERROR[0];
    if r.journey.minted {
      assert r.journey.adapter.value in TOKEN_TYPES;
    }
  }

  lemma SamlStep(r: Req, issued: multiset<(string, string)>)
    requires OnPath(r)
    ensures WithMethod(issued + IssuedOf(r), "saml")
            == WithMethod(issued, "saml") + TotalOf(r)[(TYPE_SAML2, SUCCESS)] + if SamlNotTotalled(r) then 1 else 0
  {
    IssuedMethod(r, issued, "saml");
    SuccessByMethod(r);
  }

  lemma LegacyStep(r: Req, issued: multiset<(string, string)>)
    requires OnPath(r)
    ensures WithMethod(issued + IssuedOf(r), "legacy")
            == WithMethod(issued, "legacy") + LegacySuccesses(TotalOf(r)) + if LegacyNotTotalled(r) then 1 else 0
  {
    IssuedMethod(r, issued, "legacy");
    SuccessByMethod(r);
  }

  lemma {:induction false} SamlSplit(reqs: seq<Req>)
    requires OnPaths(reqs)
    ensures WithMethod(Gather(reqs, IssuedOf), "saml")
            == Gather(reqs, TotalOf)[(TYPE_SAML2, SUCCESS)] + Count(reqs, SamlNotTotalled)
  {
    if reqs != [] {
      SamlSplit(reqs[..|reqs| - 1]);
      SamlStep(reqs[|reqs| - 1], Gather(reqs[..|reqs| - 1], IssuedOf));
    }
  }

  lemma {:induction false} LegacySplit(reqs: seq<Req>)
    requires OnPaths(reqs)
    ensures WithMethod(Gather(reqs, IssuedOf), "legacy")
            == LegacySuccesses(Gather(reqs, TotalOf)) + Count(reqs, LegacyNotTotalled)
  {
    if reqs != [] {
      LegacySplit(reqs[..|reqs| - 1]);
      LegacyStep(reqs[|reqs| - 1], Gather(reqs[..|reqs| - 1], IssuedOf));
    }
  }

  /** Tokens issued under auth method saml are the SAML adapter's successes, and under legacy the
      other adapters', each plus its in-flight requests past issuance, of which there are none
      when all requests have finished. */
  lemma IssuedByMethod(run: Run)
    requires Valid(run)
    ensures var s := run.s;
            && WithMethod(s.counters.issued, "saml") == s.counters.requestTotal[(TYPE_SAML2, SUCCESS)] + Count(s.reqs, SamlNotTotalled)
            && WithMethod(s.counters.issued, "legacy") == LegacySuccesses(s.counters.requestTotal) + Count(s.reqs, LegacyNotTotalled)
            && (Quiescent(s) ==> Count(s.reqs, SamlNotTotalled) == Count(s.reqs, LegacyNotTotalled) == 0)
  {
    RunIsAccounted(run);
    SamlSplit(run.s.reqs);
    LegacySplit(run.s.reqs);
    if Quiescent(run.s) {
      CountNone(run.s.reqs, SamlNotTotalled);
      CountNone(run.s.reqs, LegacyNotTotalled);
    }
  }

  lemma ObservationCounts(reqs: seq<Req>)
    requires OnPaths(reqs)
    ensures Count(reqs, AdapterObserved) >= Count(reqs, MintObserved) >= Count(reqs, HasIssued)
  {
    CountMonotone(reqs, MintObserved, AdapterObserved);
    CountMonotone(reqs, HasIssued, MintObserved);
  }

  lemma MintObservations(run: Run)
    requires Valid(run)
    ensures run.s.counters.mintDuration == Count(run.s.reqs, MintObserved)
  {
    RunIsAccounted(run);
    GatherSize(run.s.reqs, MintOf, MintObserved);
  }

  /** Adapter observations are at least mint observations, and those at least tokens issued. */
  lemma ObservationsDecrease(run: Run)
    requires Valid(run)
    ensures var c := run.s.counters;
            |c.adapterDuration| >= c.mintDuration >= |c.issued|
  {
    RunIsAccounted(run);
    SizesAreCounts(run.s.reqs);
    ObservationCounts(run.s.reqs);
  }

  /** The adapter label of a request observed but not yet totalled. */
  function PendingAdapterOf(r: Req): multiset<string> {
    When(AdapterObserved(r) && !PastTotal(r), AdapterName(r.journey))
  }

  lemma AdapterLabel(r: Req, a: string)
    requires OnPath(r) && a in TOKEN_TYPES
    ensures AdapterOf(r)[a] == TotalOf(r)[(a, SUCCESS)] + TotalOf(r)[(a, ERROR)] + PendingAdapterOf(r)[a]
  {
    TokenTypesDiffer();
    assert a != "" && a != UNKNOWN;
    assert SUCCESS[0] != ERROR[0];
  }

  lemma {:induction false} AdapterSplit(reqs: seq<Req>, a: string)
    requires OnPaths(reqs) && a in TOKEN_TYPES
    ensures Gather(reqs, AdapterOf)[a]
            == Gather(reqs, TotalOf)[(a, SUCCESS)] + Gather(reqs, TotalOf)[(a, ERROR)] + Gather(reqs, PendingAdapterOf)[a]
  {
    if reqs != [] {
      AdapterSplit(reqs[..|reqs| - 1], a);
      AdapterLabel(reqs[|reqs| - 1], a);
    }
  }

  /** For each adapter, the observations of its duration are its successes plus its errors plus
      the requests it has served that are not yet counted. */
  lemma AdapterLaw(run: Run, a: string)
    requires Valid(run) && a in TOKEN_TYPES
    ensures var s := run.s;
            s.counters.adapterDuration[a]
            == s.counters.requestTotal[(a, SUCCESS)] + s.counters.requestTotal[(a, ERROR)] + Gather(s.reqs, PendingAdapterOf)[a]
  {
    RunIsAccounted(run);
    AdapterSplit(run.s.reqs, a);
  }

  // ----- at quiescence -----

  ghost predicate Quiescent(s: State) { forall i | 0 <= i < |s.reqs| :: s.reqs[i].pc.Finished? }

  predicate ExchangeSucceeded(r: Req) { r.journey.claims.Some? }

  lemma {:induction false} NothingOpen<L>(reqs: seq<Req>, f: Req -> multiset<L>)
    requires forall i | 0 <= i < |reqs| :: f(reqs[i]) == multiset{}
    ensures Gather(reqs, f) == multiset{}
  {
    if reqs != [] {
      NothingOpen(reqs[..|reqs| - 1], f);
    }
  }

  lemma {:induction false} CountNone(reqs: seq<Req>, p: Req -> bool)
    requires forall i | 0 <= i < |reqs| :: !p(reqs[i])
    ensures Count(reqs, p) == 0
  {
    if reqs != [] {
      CountNone(reqs[..|reqs| - 1], p);
    }
  }

  predicate IsOpen(r: Req) { !PastTotal(r) }

  lemma QuiescentCounts(s: State)
    requires Quiescent(s)
    ensures Count(s.reqs, InFlight) == 0 && Count(s.reqs, IssuedNotTotalled) == 0
    ensures Count(s.reqs, PastTotal) == |s.reqs|
    ensures Count(s.reqs, MintObserved) == Count(s.reqs, ExchangeSucceeded)
  {
    CountNone(s.reqs, InFlight);
    CountNone(s.reqs, IssuedNotTotalled);
    CountArrived(s.reqs);
    CountNone(s.reqs, IsOpen);
    CountSplit(s.reqs, Arrived, PastTotal, IsOpen);
    CountMonotone(s.reqs, MintObserved, ExchangeSucceeded);
    CountMonotone(s.reqs, ExchangeSucceeded, MintObserved);
  }

  lemma QuiescentAdapters(run: Run)
    requires Valid(run) && Quiescent(run.s)
    ensures var c := run.s.counters;
            forall a | a in TOKEN_TYPES :: c.adapterDuration[a] == c.requestTotal[(a, SUCCESS)] + c.requestTotal[(a, ERROR)]
  {
    NothingOpen(run.s.reqs, PendingAdapterOf);
    forall a | a in TOKEN_TYPES
      ensures run.s.counters.adapterDuration[a] == run.s.counters.requestTotal[(a, SUCCESS)] + run.s.counters.requestTotal[(a, ERROR)]
    {
      AdapterLaw(run, a);
    }
  }

  /** When all requests have finished: the gauge is zero; the request counter equals the duration
      histogram label by label and has one increment a request; each adapter's observations are
      its successes plus errors; mint observations are the successful adapter exchanges; tokens
      issued are the successes. */
  lemma QuiescentLaws(run: Run)
    requires Valid(run) && Quiescent(run.s)
    ensures var s := run.s;
            var c := s.counters;
            && c.active == 0
            && c.requestTotal == c.requestDuration
            && |c.requestTotal| == |s.reqs|
            && (forall a | a in TOKEN_TYPES :: c.adapterDuration[a] == c.requestTotal[(a, SUCCESS)] + c.requestTotal[(a, ERROR)])
            && c.mintDuration == Count(s.reqs, ExchangeSucceeded)
            && |c.issued| == SuccessTotal(c.requestTotal)
  {
    var s := run.s;
    QuiescentCounts(s);
    GaugeLaw(run);
    DurationAndTotalAgree(run);
    NothingOpen(s.reqs, BetweenOf);
    QuiescentAdapters(run);
    MintObservations(run);
    IssuedLaw(run);
  }

  // ----- one request alone -----

  function Remaining(pc: Pc): nat {
    match pc
    case Entered => 10 case Resolving => 9 case Exchanging => 8 case ExchangeDone => 7 case Minting => 6
    case MintDone => 5 case TokenIssued => 4 case Handled => 3 case DurationObserved => 2 case Totalled => 1 case Finished => 0
  }

  lemma NextIsCloser(r: Req)
    requires OnPath(r) && r.pc != Finished
    ensures OnPath(NextReq(r)) && Remaining(NextReq(r).pc) < Remaining(r.pc)
  {
    StaysOnPath(r);
  }

  /** The counters after a request has taken all its remaining steps with no other in between. */
  function RunAlone(c: Counters, r: Req): Counters
    requires OnPath(r)
    decreases Remaining(r.pc)
  {
    if r.pc.Finished? then c
    else
      NextIsCloser(r);
      RunAlone(Touch(c, r), NextReq(r))
  }

  /** What a request has still to add. */
  predicate ObservationLeft(r: Req) { !PastObservation(r) }
  predicate TotalLeft(r: Req) { !PastTotal(r) }
  predicate AdapterLeft(r: Req) { r.journey.adapter.Some? && !AdapterObserved(r) }
  predicate MintLeft(r: Req) { r.journey.claims.Some? && !MintObserved(r) }
  predicate IssueLeft(r: Req) { r.journey.minted && !HasIssued(r) }

  /** The counters once a request has added all that its journey will add. */
  function Settled(c: Counters, r: Req): Counters {
    var j := r.journey;
    Counters(
      if InFlight(r) then c.active - 1 else c.active,
      c.requestDuration + When(ObservationLeft(r), LabelOf(j)),
      c.requestTotal + When(TotalLeft(r), LabelOf(j)),
      c.adapterDuration + When(AdapterLeft(r), AdapterName(j)),
      if MintLeft(r) then c.mintDuration + 1 else c.mintDuration,
      c.issued + When(IssueLeft(r), IssuedLabel(j)))
  }

  lemma WhenThen<L>(m: multiset<L>, a: bool, b: bool, l: L)
    requires !(a && b)
    ensures m + When(a, l) + When(b, l) == m + When(a || b, l)
  {}

  lemma LeftByStep(r: Req)
    requires OnPath(r) && r.pc != Finished
    ensures ObservationLeft(r) <==> r.pc.Handled? || ObservationLeft(NextReq(r))
    ensures TotalLeft(r) <==> r.pc.DurationObserved? || TotalLeft(NextReq(r))
    ensures !(r.pc.Handled? && ObservationLeft(NextReq(r))) && !(r.pc.DurationObserved? && TotalLeft(NextReq(r)))
  {}

  lemma LeftByHandler(r: Req)
    requires OnPath(r) && r.pc != Finished
    ensures AdapterLeft(r) <==> r.pc.Exchanging? || AdapterLeft(NextReq(r))
    ensures MintLeft(r) <==> r.pc.Minting? || MintLeft(NextReq(r))
    ensures IssueLeft(r) <==> Issues(r) || IssueLeft(NextReq(r))
    ensures !(r.pc.Exchanging? && AdapterLeft(NextReq(r))) && !(r.pc.Minting? && MintLeft(NextReq(r)))
    ensures !(Issues(r) && IssueLeft(NextReq(r)))
  {}

  lemma SettledActive(c: Counters, r: Req)
    requires OnPath(r) && r.pc != Finished
    ensures Settled(Touch(c, r), NextReq(r)).active == Settled(c, r).active
  {
    Milestones(r);
  }

  lemma SettledTotals(c: Counters, r: Req)
    requires OnPath(r) && r.pc != Finished
    ensures var a, b := Settled(Touch(c, r), NextReq(r)), Settled(c, r);
            a.requestDuration == b.requestDuration && a.requestTotal == b.requestTotal
  {
    LeftByStep(r);
    WhenThen(c.requestDuration, r.pc.Handled?, ObservationLeft(NextReq(r)), LabelOf(r.journey));
    WhenThen(c.requestTotal, r.pc.DurationObserved?, TotalLeft(NextReq(r)), LabelOf(r.journey));
  }

  lemma SettledAdapter(c: Counters, r: Req)
    requires OnPath(r) && r.pc != Finished
    ensures Settled(Touch(c, r), NextReq(r)).adapterDuration == Settled(c, r).adapterDuration
  {
    LeftByHandler(r);
    WhenThen(c.adapterDuration, r.pc.Exchanging?, AdapterLeft(NextReq(r)), AdapterName(r.journey));
  }

  lemma SettledMint(c: Counters, r: Req)
    requires OnPath(r) && r.pc != Finished
    ensures Settled(Touch(c, r), NextReq(r)).mintDuration == Settled(c, r).mintDuration
  {
    LeftByHandler(r);
  }

  lemma SettledIssued(c: Counters, r: Req)
    requires OnPath(r) && r.pc != Finished
    ensures Settled(Touch(c, r), NextReq(r)).issued == Settled(c, r).issued
  {
    LeftByHandler(r);
    WhenThen(c.issued, Issues(r), IssueLeft(NextReq(r)), IssuedLabel(r.journey));
  }

  lemma SettledStep(c: Counters, r: Req)
    requires OnPath(r) && r.pc != Finished
    ensures Settled(Touch(c, r), NextReq(r)) == Settled(c, r)
  {
    SettledActive(c, r);
    SettledTotals(c, r);
    SettledAdapter(c, r);
    SettledMint(c, r);
    SettledIssued(c, r);
  }

  lemma SettledAtEnd(c: Counters, r: Req)
    requires OnPath(r) && r.pc.Finished?
    ensures Settled(c, r) == c
  {
    var s := Settled(c, r);
    assert s.requestDuration == c.requestDuration && s.requestTotal == c.requestTotal;
    assert s.adapterDuration == c.adapterDuration && s.issued == c.issued;
  }

  lemma {:induction false} RunAloneSettles(c: Counters, r: Req)
    requires OnPath(r)
    ensures RunAlone(c, r) == Settled(c, r)
    decreases Remaining(r.pc)
  {
    if r.pc.Finished? {
      SettledAtEnd(c, r);
    } else {
      NextIsCloser(r);
      RunAloneSettles(Touch(c, r), NextReq(r));
      SettledStep(c, r);
    }
  }

  /** The counters a whole request leaves behind, the gauge being back where it was: one
      increment of its label in the request counter and in the duration histogram, one of its
      adapter if it got one, a mint observation if the exchange succeeded, an issued token if the
      minting did. */
  function Completed(c: Counters, j: Journey): Counters {
    Counters(c.active,
             c.requestDuration + multiset{LabelOf(j)},
             c.requestTotal + multiset{LabelOf(j)},
             if j.adapter.Some? then c.adapterDuration + multiset{j.adapter.value} else c.adapterDuration,
             if j.claims.Some? then c.mintDuration + 1 else c.mintDuration,
             if j.minted then c.issued + multiset{IssuedLabel(j)} else c.issued)
  }

  lemma EnteredSettles(c: Counters, j: Journey)
    ensures Settled(c.(active := c.active + 1), Req(j, Entered)) == Completed(c, j)
  {
    var r := Req(j, Entered);
    var s, d := Settled(c.(active := c.active + 1), r), Completed(c, j);
    assert !AdapterObserved(r) && !MintObserved(r) && !HasIssued(r);
    assert s.adapterDuration == d.adapterDuration;
    assert s.issued == d.issued;
  }

  /** The steps of one uninterrupted request add up to Completed. */
  lemma RunAloneCompletes(c: Counters, j: Journey)
    requires ValidJourney(j)
    ensures RunAlone(c.(active := c.active + 1), Req(j, Entered)) == Completed(c, j)
  {
    RunAloneSettles(c.(active := c.active + 1), Req(j, Entered));
    EnteredSettles(c, j);
  }
}
