/** The bounded outbound connector: candidates, slices of the deadline, and the authority around each attempt. */
module Connector {
  import opened Common
  import opened CellularOwner

  datatype Address = V4(bits: nat) | V6(bits: nat)

  datatype Destination = Numeric(address: Address) | Name(name: string)

  datatype ConnectError = Rejected | Unavailable | Failed

  // ----- candidates ----------------------------------------------------------------------------------------

  const MAX_IPV4_CANDIDATES: nat := 8

  /** The IPv4 addresses in the order of their first occurrence. */
  function DistinctV4(addresses: seq<Address>): seq<Address> {
    if addresses == [] then []
    else
      var before, last := DistinctV4(addresses[..|addresses| - 1]), addresses[|addresses| - 1];
      if last.V4? && last !in before then before + [last] else before
  }

  function FirstEight(addresses: seq<Address>): seq<Address> {
    if |addresses| <= MAX_IPV4_CANDIDATES then addresses else addresses[..MAX_IPV4_CANDIDATES]
  }

  lemma {:induction false} DistinctGrows(addresses: seq<Address>, n: nat)
    requires n <= |addresses|
    ensures DistinctV4(addresses[..n]) <= DistinctV4(addresses)
    decreases |addresses|
  {
    if n < |addresses| {
      var front := addresses[..|addresses| - 1];
      DistinctGrows(front, n);
      assert front[..n] == addresses[..n];
    } else {
      assert addresses[..n] == addresses;
    }
  }

  /** Where an address occurs first. */
  function FirstAt(addresses: seq<Address>, a: Address): (i: nat)
    requires a in addresses
    ensures i < |addresses| && addresses[i] == a && a !in addresses[..i]
  {
    var front := addresses[..|addresses| - 1];
    if a in front then
      assert addresses[..FirstAt(front, a)] == front[..FirstAt(front, a)];
      FirstAt(front, a)
    else |addresses| - 1
  }

  /** Exactly the IPv4 addresses that occur, each once, in the order in which they first occur. */
  lemma {:induction false} DistinctMeaning(addresses: seq<Address>)
    ensures forall a: Address :: a in DistinctV4(addresses) <==> a.V4? && a in addresses
    ensures forall i, j | 0 <= i < j < |DistinctV4(addresses)| ::
      FirstAt(addresses, DistinctV4(addresses)[i]) < FirstAt(addresses, DistinctV4(addresses)[j])
    ensures forall i, j | 0 <= i < j < |DistinctV4(addresses)| :: DistinctV4(addresses)[i] != DistinctV4(addresses)[j]
  {
    if addresses != [] {
      var front, last := addresses[..|addresses| - 1], addresses[|addresses| - 1];
      DistinctMeaning(front);
      assert addresses == front + [last];
      forall i, j | 0 <= i < j < |DistinctV4(addresses)|
        ensures FirstAt(addresses, DistinctV4(addresses)[i]) < FirstAt(addresses, DistinctV4(addresses)[j])
      {
        assert DistinctV4(front)[i] in front;
        if j < |DistinctV4(front)| { assert DistinctV4(front)[j] in front; }
      }
    }
  }

  method BoundedIpv4Candidates(addresses: seq<Address>) returns (result: Result<seq<Address>, ConnectError>)
    ensures result == if DistinctV4(addresses) == [] then Err(Failed) else Ok(FirstEight(DistinctV4(addresses)))
  {
    var candidates: seq<Address> := [];
    var i := 0;
    while i < |addresses| && |candidates| < MAX_IPV4_CANDIDATES
      invariant i <= |addresses| && candidates == DistinctV4(addresses[..i]) && |candidates| <= MAX_IPV4_CANDIDATES
    {
      assert addresses[..i + 1][..i] == addresses[..i];
      if addresses[i].V4? && addresses[i] !in candidates {
        candidates := candidates + [addresses[i]];
      }
      i := i + 1;
    }
    DistinctGrows(addresses, i);
    assert addresses[..|addresses|] == addresses;
    ghost var all := DistinctV4(addresses);
    assert all[..|candidates|] == candidates && all[..|all|] == all;
    assert FirstEight(all) == candidates;
    return if candidates == [] then Err(Failed) else Ok(candidates);
  }

  // ----- the world the connector acts in ----------------------------------------------------------------

  /**
   One connect effect: the owner was asked at step `checked`, the clock read at the two steps after it, and
   the connect was the effect of step `at`.
   */
  datatype Attempt = Attempt(
    address: Address, port: nat, authority: Authority, checked: nat, measuredAt: nat, startedAt: nat,
    deadline: nat, at: nat)

  /**
   Clock, owner and network answer as they like: each effect takes one step, and what it finds there is
   fixed by the step alone.
   */
  class World {
    const clock: nat -> nat
    const owner: nat -> Owner
    const outcome: nat -> Result<nat, ConnectError>
    const answer: Result<seq<Address>, ConnectError>
    var step: nat
    var attempts: seq<Attempt>

    constructor (clock: nat -> nat, owner: nat -> Owner, outcome: nat -> Result<nat, ConnectError>,
                 answer: Result<seq<Address>, ConnectError>)
      ensures step == 0 && attempts == []
      ensures this.clock == clock && this.owner == owner && this.outcome == outcome && this.answer == answer
    {
      this.clock, this.owner, this.outcome, this.answer := clock, owner, outcome, answer;
      step, attempts := 0, [];
    }

    method Now() returns (t: nat)
      modifies this`step
      ensures t == clock(old(step)) && step == old(step) + 1
    {
      t := clock(step);
      step := step + 1;
    }

    method Issue() returns (authority: Result<Authority, AuthorityError>)
      modifies this`step
      ensures authority == IssueAuthority(owner(old(step))) && step == old(step) + 1
    {
      authority := IssueAuthority(owner(step));
      step := step + 1;
    }

    method Current(authority: Authority) returns (current: bool)
      modifies this`step
      ensures current == Validates(owner(old(step)), authority) && step == old(step) + 1
    {
      current := Validates(owner(step), authority);
      step := step + 1;
    }

    method LastSequence() returns (sequence: Option<nat>)
      modifies this`step
      ensures sequence == owner(old(step)).admission.lastSequence && step == old(step) + 1
    {
      sequence := owner(step).admission.lastSequence;
      step := step + 1;
    }

    method Lookup() returns (addresses: Result<seq<Address>, ConnectError>)
      modifies this`step
      ensures addresses == answer && step == old(step) + 1
    {
      addresses := answer;
      step := step + 1;
    }

    /** Logs the attempt under the step at which it runs, whatever the caller wrote there. */
    method Connect(attempt: Attempt) returns (result: Result<nat, ConnectError>)
      modifies this
      ensures result == outcome(old(step)) && step == old(step) + 1
      ensures attempts == old(attempts) + [attempt.(at := old(step))]
    {
      result := outcome(step);
      attempts := attempts + [attempt.(at := step)];
      step := step + 1;
    }
  }

  /** `remaining(deadline).is_ok()` at clock reading `now`. */
  predicate Before(now: nat, deadline: nat) {
    now < deadline
  }

  function Slice(measuredAt: nat, deadline: nat, attemptsLeft: nat): nat
    requires measuredAt <= deadline && attemptsLeft > 0
  {
    (deadline - measuredAt) / attemptsLeft
  }

  function Earlier(a: nat, b: nat): nat {
    if a < b then a else b
  }

  /** What is asked of every attempt of one operation. */
  datatype Order = Order(candidates: seq<Address>, port: nat, authority: Authority, deadline: nat)

  /** Attempt `i`: validated three effects before it ran, on the `i`-th candidate, with its share of what is left. */
  predicate Sound(world: World, a: Attempt, o: Order, i: nat) {
    && i < |o.candidates| && a.address == o.candidates[i] && a.port == o.port && a.authority == o.authority
    && a.at == a.checked + 3 && Validates(world.owner(a.checked), o.authority)
    && a.measuredAt == world.clock(a.checked + 1) && a.startedAt == world.clock(a.checked + 2)
    && a.measuredAt < o.deadline
    && a.deadline == Earlier(a.startedAt + Slice(a.measuredAt, o.deadline, |o.candidates| - i), o.deadline)
  }

  /** The network refused without forbidding, and the owner confirmed the authority right after. */
  predicate MovesOn(world: World, a: Attempt, o: Order) {
    && world.outcome(a.at).Err? && !world.outcome(a.at).error.Rejected?
    && Validates(world.owner(a.at + 1), o.authority)
  }

  /** Each attempt but the last was refused and survived; the next was validated anew, three effects later. */
  predicate SoundLog(world: World, log: seq<Attempt>, o: Order) {
    && |log| <= |o.candidates|
    && (forall i | 0 <= i < |log| :: Sound(world, log[i], o, i))
    && (forall i | 0 <= i < |log| - 1 :: MovesOn(world, log[i], o) && log[i + 1].checked == log[i].at + 3)
  }

  /** The last effect ended the operation: time was up, the authority was gone, or the network rejected. */
  predicate Stopped(world: World, o: Order, result: Result<nat, ConnectError>)
    reads world
  {
    world.step > 0 &&
    if result == Err(Rejected) then world.outcome(world.step - 1) == Err(Rejected)
    else
      && result == Err(Unavailable)
      && (world.clock(world.step - 1) >= o.deadline || !Validates(world.owner(world.step - 1), o.authority))
  }

  /** The last attempt connected, and after it came a reading before the deadline and a confirmation. */
  predicate Connected(world: World, o: Order, stream: nat)
    reads world
  {
    world.attempts != [] &&
    var last := world.attempts[|world.attempts| - 1];
    && world.step == last.at + 3 && world.outcome(last.at) == Ok(stream)
    && world.clock(last.at + 1) < o.deadline && Validates(world.owner(last.at + 2), o.authority)
  }

  /** Every candidate was tried and refused; the last refusal is the answer. */
  predicate Exhausted(world: World, o: Order, result: Result<nat, ConnectError>)
    reads world
  {
    && |world.attempts| == |o.candidates|
    && (world.attempts == [] ==> result == Err(Failed))
    && (world.attempts != [] ==>
      var last := world.attempts[|world.attempts| - 1];
      MovesOn(world, last, o) && result == world.outcome(last.at))
  }

  /** Deadline, authority, deadline again: what stands before each connect. */
  method PrepareAttempt(world: World, o: Order, i: nat) returns (attempt: Option<Attempt>)
    requires i < |o.candidates|
    modifies world`step
    ensures attempt.Some? ==>
      && Sound(world, attempt.value, o, i)
      && attempt.value.checked == old(world.step) + 1 && world.step == attempt.value.at
    ensures attempt.None? ==> Stopped(world, o, Err(Unavailable)) && world.step > old(world.step)
  {
    var now := world.Now();
    if !Before(now, o.deadline) { return None; }
    var checked := world.step;
    var current := world.Current(o.authority);
    if !current { return None; }
    var measuredAt := world.Now();
    if !Before(measuredAt, o.deadline) { return None; }
    var startedAt := world.Now();
    var attemptDeadline := Earlier(startedAt + Slice(measuredAt, o.deadline, |o.candidates| - i), o.deadline);
    return Some(Attempt(o.candidates[i], o.port, o.authority, checked, measuredAt, startedAt, attemptDeadline,
      world.step));
  }

  /** What follows a connect; `None` moves on to the next candidate. */
  method SettleAttempt(world: World, result: Result<nat, ConnectError>, o: Order)
    returns (verdict: Option<Result<nat, ConnectError>>)
    requires world.attempts != [] && world.step == world.attempts[|world.attempts| - 1].at + 1
    requires result == world.outcome(world.step - 1)
    modifies world`step
    ensures verdict.None? ==>
      var last := world.attempts[|world.attempts| - 1]; MovesOn(world, last, o) && world.step == last.at + 2
    ensures verdict.Some? && verdict.value.Ok? ==> Connected(world, o, verdict.value.value)
    ensures verdict.Some? && verdict.value.Err? ==> Stopped(world, o, verdict.value)
    ensures world.step >= old(world.step)
  {
    if result.Ok? {
      var now := world.Now();
      if !Before(now, o.deadline) { return Some(Err(Unavailable)); }
      var current := world.Current(o.authority);
      return Some(if current then Ok(result.value) else Err(Unavailable));
    }
    if result.error.Rejected? { return Some(Err(Rejected)); }
    var current := world.Current(o.authority);
    return if current then None else Some(Err(Unavailable));
  }

  /** Between two turns: the last attempt, if there was one, was refused and survived. */
  predicate Turned(world: World, o: Order, lastError: ConnectError)
    reads world
  {
    if world.attempts == [] then lastError == Failed
    else
      var last := world.attempts[|world.attempts| - 1];
      MovesOn(world, last, o) && world.step == last.at + 2 && world.outcome(last.at) == Err(lastError)
  }

  method TryCandidates(world: World, o: Order) returns (result: Result<nat, ConnectError>)
    requires world.attempts == []
    modifies world
    ensures SoundLog(world, world.attempts, o)
    ensures result.Ok? ==> Connected(world, o, result.value)
    ensures result.Err? ==> Stopped(world, o, result) || Exhausted(world, o, result)
    ensures world.step >= old(world.step)
  {
    hide Sound;
    var lastError := Failed;
    for i := 0 to |o.candidates|
      invariant world.step >= old(world.step)
      invariant |world.attempts| == i && SoundLog(world, world.attempts, o) && Turned(world, o, lastError)
    {
      var attempt := PrepareAttempt(world, o, i);
      if attempt.None? { return Err(Unavailable); }
      assert attempt.value == attempt.value.(at := world.step);
      var outcome := world.Connect(attempt.value);
      var verdict := SettleAttempt(world, outcome, o);
      if verdict.Some? { return verdict.value; }
      lastError := outcome.error;
    }
    return Err(lastError);
  }

  datatype DnsError = AuthorityUnavailable | ResolverFailed | DeadlineExceeded | StaleAuthority | UnusableResult

  /** The lookup that would start at step `s` is made: in time, under a confirmed authority. */
  predicate Asked(world: World, s: nat, authority: Authority, deadline: nat) {
    world.clock(s) < deadline && Validates(world.owner(s + 1), authority)
  }

  predicate AnsweredInTime(world: World, s: nat, authority: Authority, deadline: nat) {
    Asked(world, s, authority, deadline) && world.answer.Ok? && world.clock(s + 3) < deadline
  }

  /** The answer came in time and the owner confirmed the authority after it. */
  predicate Confirmed(world: World, s: nat, authority: Authority, deadline: nat) {
    AnsweredInTime(world, s, authority, deadline) && Validates(world.owner(s + 4), authority)
  }

  predicate NewerOwner(world: World, s: nat, authority: Authority) {
    var sequence := world.owner(s).admission.lastSequence;
    sequence.Some? && sequence.value != authority.sequence
  }

  /** Addresses only after a confirmation that followed the lookup, and one error for each way it can fail. */
  method ResolveCurrentDomain(world: World, authority: Authority, deadline: nat)
    returns (result: Result<seq<Address>, DnsError>)
    modifies world`step
    ensures var s := old(world.step);
      && (result.Ok? <==> Confirmed(world, s, authority, deadline) && DistinctV4(world.answer.value) != [])
      && (result.Ok? ==> result.value == FirstEight(DistinctV4(world.answer.value)) && world.step == s + 5)
    ensures var s := old(world.step);
      && (result == Err(UnusableResult) <==>
            Confirmed(world, s, authority, deadline) && DistinctV4(world.answer.value) == [])
      && (result == Err(ResolverFailed) <==> Asked(world, s, authority, deadline) && world.answer.Err?)
      && (result == Err(DeadlineExceeded) <==>
            || world.clock(s) >= deadline
            || (Asked(world, s, authority, deadline) && world.answer.Ok? && world.clock(s + 3) >= deadline))
      && (result == Err(StaleAuthority) <==>
            && AnsweredInTime(world, s, authority, deadline) && !Confirmed(world, s, authority, deadline)
            && NewerOwner(world, s + 5, authority))
    ensures world.step > old(world.step)
  {
    var now := world.Now();
    if !Before(now, deadline) { return Err(DeadlineExceeded); }
    var current := world.Current(authority);
    if !current { return Err(AuthorityUnavailable); }
    var addresses := world.Lookup();
    if addresses.Err? { return Err(ResolverFailed); }
    now := world.Now();
    if !Before(now, deadline) { return Err(DeadlineExceeded); }
    current := world.Current(authority);
    if !current {
      var sequence := world.LastSequence();
      var newer := sequence.Some? && sequence.value != authority.sequence;
      return Err(if newer then StaleAuthority else AuthorityUnavailable);
    }
    var candidates := BoundedIpv4Candidates(addresses.value);
    return if candidates.Ok? then Ok(candidates.value) else Err(UnusableResult);
  }

  function FromDns(error: DnsError): ConnectError {
    if error.ResolverFailed? || error.UnusableResult? then Failed else Unavailable
  }

  /** What a destination may be tried as. */
  function Candidates(world: World, destination: Destination): seq<Address> {
    match destination
    case Numeric(address) => if address.V4? then [address] else []
    case Name(_) => if world.answer.Ok? then FirstEight(DistinctV4(world.answer.value)) else []
  }

  /** The operation that starts at step `s` gets its authority at the step after. */
  predicate Begun(world: World, s: nat, port: nat, authority: Authority, deadline: nat) {
    port != 0 && world.clock(s) < deadline && IssueAuthority(world.owner(s + 1)) == Ok(authority)
  }

  /** The name was looked up to something usable. */
  predicate Resolved(world: World, s: nat, authority: Authority, deadline: nat) {
    Confirmed(world, s + 2, authority, deadline) && DistinctV4(world.answer.value) != []
  }

  /** Why a name yields nothing to try. */
  function Unresolved(world: World, s: nat, authority: Authority, deadline: nat): ConnectError {
    if Asked(world, s + 2, authority, deadline) && world.answer.Err? then Failed
    else if Confirmed(world, s + 2, authority, deadline) then Failed
    else Unavailable
  }

  /**
   Every attempt is on the next candidate, under an authority the owner confirmed three effects before it;
   a stream is returned only when the owner still confirms it after the connect.
   */
  method ConnectHost(world: World, destination: Destination, port: nat, deadline: nat)
    returns (result: Result<nat, ConnectError>, ghost authority: Authority)
    requires world.attempts == []
    modifies world
    ensures SoundLog(world, world.attempts, Order(Candidates(world, destination), port, authority, deadline))
    ensures |world.attempts| <= MAX_IPV4_CANDIDATES
    ensures world.attempts != [] ==> Begun(world, old(world.step), port, authority, deadline)
    ensures port != 0 && world.clock(old(world.step)) < deadline && IssueAuthority(world.owner(old(world.step) + 1)).Ok?
      ==> authority == IssueAuthority(world.owner(old(world.step) + 1)).value
    ensures port == 0 ==> result == Err(Rejected)
    ensures port != 0 && !Begun(world, old(world.step), port, authority, deadline) ==> result == Err(Unavailable)
    ensures Begun(world, old(world.step), port, authority, deadline) ==> world.step >= old(world.step) + 2
    ensures Begun(world, old(world.step), port, authority, deadline) ==>
      var o, s := Order(Candidates(world, destination), port, authority, deadline), old(world.step);
      if destination.Numeric? && destination.address.V6? then result == Err(Rejected) && world.attempts == []
      else if destination.Name? && !Resolved(world, s, authority, deadline) then
        result == Err(Unresolved(world, s, authority, deadline)) && world.attempts == []
      else if result.Ok? then Connected(world, o, result.value)
      else Stopped(world, o, result) || Exhausted(world, o, result)
  {
    hide Sound, Connected, Stopped, Exhausted;
    authority := Authority(0, 0);
    if port == 0 { return Err(Rejected), authority; }
    var now := world.Now();
    if !Before(now, deadline) { return Err(Unavailable), authority; }
    var issued := world.Issue();
    if issued.Err? { return Err(Unavailable), authority; }
    authority := issued.value;
    match destination {
      case Numeric(address) =>
        if address.V6? { return Err(Rejected), authority; }
        result := TryCandidates(world, Order([address], port, issued.value, deadline));
      case Name(_) =>
        var resolved := ResolveCurrentDomain(world, issued.value, deadline);
        if resolved.Err? { return Err(FromDns(resolved.error)), authority; }
        result := TryCandidates(world, Order(resolved.value, port, issued.value, deadline));
    }
  }

  // ----- the authority over the whole operation ---------------------------------------------------------

  /** What the world shows of the owner is one run of it: at step `k` the first `seen(k)` events have happened. */
  ghost predicate OwnerIsOneRun(world: World, start: Owner, events: seq<Event>, seen: nat -> nat) {
    && (forall k: nat :: seen(k) <= |events| && world.owner(k) == Run(start, events[..seen(k)]))
    && (forall i: nat, k: nat | i <= k :: seen(i) <= seen(k))
  }

  /** A token issued and still valid later was valid at every step between. */
  lemma HeldBetween(world: World, start: Owner, events: seq<Event>, seen: nat -> nat, authority: Authority,
                    i: nat, k: nat, j: nat)
    requires OwnerIsOneRun(world, start, events, seen) && i <= k <= j
    requires IssueAuthority(world.owner(i)) == Ok(authority) && Validates(world.owner(j), authority)
    ensures Validates(world.owner(k), authority)
  {
    if !Validates(world.owner(k), authority) {
      InvalidStaysInvalid(start, events, seen(i), seen(k), seen(j));
    }
  }

  /** A returned stream means that the authority held at every effect from its issue to the return. */
  lemma StreamMeansHeldAuthority(world: World, start: Owner, events: seq<Event>, seen: nat -> nat, s: nat, port: nat,
                                 o: Order, stream: nat)
    requires OwnerIsOneRun(world, start, events, seen)
    requires Begun(world, s, port, o.authority, o.deadline) && s + 1 < world.step && Connected(world, o, stream)
    ensures forall k: nat | s + 1 <= k < world.step :: Validates(world.owner(k), o.authority)
  {
    forall k: nat | s + 1 <= k < world.step ensures Validates(world.owner(k), o.authority) {
      HeldBetween(world, start, events, seen, o.authority, s + 1, k, world.step - 1);
    }
  }

  // ----- fairness -------------------------------------------------------------------------------------------

  /** Both clock readings of one deadline computation agree, and each attempt ends by its own deadline. */
  predicate Punctual(log: seq<Attempt>) {
    && (forall i | 0 <= i < |log| :: log[i].measuredAt == log[i].startedAt)
    && (forall i | 0 <= i < |log| - 1 :: log[i + 1].measuredAt <= log[i].deadline)
  }

  function SliceOf(a: Attempt): int {
    a.deadline - a.startedAt
  }

  /** What remains after one fair share still gives every later attempt at least that share. */
  lemma ShareLeavesShares(remaining: nat, attemptsLeft: nat)
    requires attemptsLeft >= 2
    ensures (remaining - remaining / attemptsLeft) / (attemptsLeft - 1) >= remaining / attemptsLeft
  {
    var q, m := remaining / attemptsLeft, attemptsLeft;
    assert remaining - q >= q * (m - 1);
    DivideBack(remaining - q, m - 1, q);
  }

  lemma DivideBack(total: nat, parts: nat, share: nat)
    requires parts > 0 && total >= share * parts
    ensures total / parts >= share
  {
    assert total < (total / parts + 1) * parts;
    assert share * parts < (total / parts + 1) * parts;
  }

  lemma DivideGrows(small: nat, large: nat, parts: nat)
    requires parts > 0 && small <= large
    ensures small / parts <= large / parts
  {
    DivideBack(large, parts, small / parts);
  }

  lemma SliceIsShare(world: World, a: Attempt, o: Order, i: nat)
    requires Sound(world, a, o, i) && a.measuredAt == a.startedAt
    ensures SliceOf(a) == (o.deadline - a.measuredAt) / (|o.candidates| - i) && a.deadline <= o.deadline
  {
    var left, m := o.deadline - a.measuredAt, |o.candidates| - i;
    assert left / m <= left by { DivideBack(left, 1, left / m); }
  }

  lemma NextSliceIsNoSmaller(world: World, log: seq<Attempt>, o: Order, i: nat)
    requires SoundLog(world, log, o) && Punctual(log) && i + 1 < |log|
    ensures SliceOf(log[i + 1]) >= SliceOf(log[i])
  {
    SliceIsShare(world, log[i], o, i);
    SliceIsShare(world, log[i + 1], o, i + 1);
    var left, m := o.deadline - log[i].measuredAt, |o.candidates| - i;
    ShareLeavesShares(left, m);
    DivideGrows(left - left / m, o.deadline - log[i + 1].measuredAt, m - 1);
  }

  /** No attempt's slice is below an equal share of the time left at the first, and none passes the deadline. */
  lemma {:induction false} EveryAttemptGetsItsShare(world: World, log: seq<Attempt>, o: Order, i: nat)
    requires SoundLog(world, log, o) && Punctual(log) && i < |log|
    ensures SliceOf(log[i]) >= (o.deadline - log[0].measuredAt) / |o.candidates| && log[i].deadline <= o.deadline
  {
    SliceIsShare(world, log[i], o, i);
    if i > 0 {
      EveryAttemptGetsItsShare(world, log, o, i - 1);
      NextSliceIsNoSmaller(world, log, o, i - 1);
    }
  }
}
