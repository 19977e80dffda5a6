/** Privacy Pass token issuance: the hourly cap, the three-attempt reserve loop run by many
    replicas at once, and the evaluated prefix of a batch. */
module TokenIssuance {
  import opened Bytes

  // ------------------------------------------------------------------------
  // The cap and the size of a grant
  // ------------------------------------------------------------------------

  /** The hourly cap by account age, in seconds; an unknown age is a young account. */
  function EffectiveCap(registeredAt: Option<int>, now: int, maturityHours: int, young: nat, full: nat): (r: (nat, bool))
    ensures r.0 <= full
    ensures r.1 <==> registeredAt.Some? && now - registeredAt.value >= maturityHours * 3600
    ensures r.0 != full ==> !r.1 && r.0 == young
    ensures !r.1 ==> r.0 <= young
  {
    if registeredAt.Some? && now - registeredAt.value >= maturityHours * 3600 then (full, true)
    else (if young < full then young else full, false)
  }

  /** The most of `want` that still fits under the cap. */
  function Grant(already: nat, want: nat, cap: nat): (g: nat)
    ensures g <= want && (g > 0 ==> already + g <= cap)
    ensures g < want ==> already + g >= cap
  {
    var room := if already >= cap then 0 else cap - already;
    if room < want then room else want
  }

  // ------------------------------------------------------------------------
  // Many replicas
  // ------------------------------------------------------------------------

  type User = string

  datatype Reservation = Reservation(request: nat, user: User, hour: nat, amount: nat)

  datatype Phase =
    | Reading
    | Reserving(want: nat, readHour: nat, readAt: nat) // what it will ask for, and when it read
    | Granted(amount: nat, at: nat, grantHour: nat, grantReadAt: nat) // by which entry, and what it had read
    | SawFull(fullHour: nat, fullAt: nat) // refused: it read a counter at or above its cap
    | Overtaken                           // refused: three reservations in a row lost the race
    | Malformed

  /** One IssueTokens call: which of its points decode; `lost` attempts failed so far; it first
      read at `since`. */
  datatype Request = Request(user: User, points: seq<bool>, wanted: nat, cap: nat, lost: nat, since: nat, phase: Phase)

  /** The counters in Redis, one per user and hour, and the history of what was reserved. Log
      positions stand for moments. */
  datatype System = System(counts: map<(User, nat), nat>, hour: nat, log: seq<Reservation>, requests: map<nat, Request>)

  const Start: System := System(map[], 0, [], map[])

  const ATTEMPTS: nat := 3
  const MAX_BATCH: nat := 20

  datatype Action =
    | Arrive(id: nat, user: User, points: seq<bool>, cap: nat) // each point: does it decode?
    | Read(id: nat)
    | Reserve(id: nat)
    | NextHour

  function Count(sys: System, user: User, hour: nat): nat {
    if (user, hour) in sys.counts then sys.counts[(user, hour)] else 0
  }

  predicate WellFormed(points: seq<bool>) {
    0 < |points| <= MAX_BATCH && forall i | 0 <= i < |points| :: points[i]
  }

  function DoRead(sys: System, id: nat): System
    requires id in sys.requests
  {
    var r := sys.requests[id];
    var want := Grant(Count(sys, r.user, sys.hour), r.wanted, r.cap);
    sys.(requests := sys.requests[id := r.(phase :=
      if want == 0 then SawFull(sys.hour, |sys.log|) else Reserving(want, sys.hour, |sys.log|))])
  }

  /** The reservation script: all of it under the cap, or nothing. */
  function DoReserve(sys: System, id: nat): System
    requires id in sys.requests && sys.requests[id].phase.Reserving?
  {
    var r := sys.requests[id];
    var want := r.phase.want;
    var count := Count(sys, r.user, sys.hour);
    if count + want <= r.cap then
      System(sys.counts[(r.user, sys.hour) := count + want], sys.hour,
             sys.log + [Reservation(id, r.user, sys.hour, want)],
             sys.requests[id := r.(phase := Granted(want, |sys.log|, r.phase.readHour, r.phase.readAt))])
    else
      sys.(requests := sys.requests[id := r.(lost := r.lost + 1,
                                             phase := if r.lost + 1 == ATTEMPTS then Overtaken else Reading)])
  }

  function Step(full: nat, sys: System, a: Action): System {
    match a
    case Arrive(id, user, points, cap) =>
      if id in sys.requests || cap > full then sys
      else sys.(requests := sys.requests[id :=
             Request(user, points, |points|, cap, 0, |sys.log|, if WellFormed(points) then Reading else Malformed)])
    case Read(id) => if id in sys.requests && sys.requests[id].phase == Reading then DoRead(sys, id) else sys
    case Reserve(id) =>
      if id in sys.requests && sys.requests[id].phase.Reserving? then DoReserve(sys, id) else sys
    case NextHour => sys.(hour := sys.hour + 1)
  }

  function Run(full: nat, actions: seq<Action>): System {
    if actions == [] then Start else Step(full, Run(full, actions[..|actions| - 1]), actions[|actions| - 1])
  }

  // ------------------------------------------------------------------------
  // Sums over the history
  // ------------------------------------------------------------------------

  ghost function Total(log: seq<Reservation>, user: User, hour: nat): nat {
    if log == [] then 0
    else
      var last := log[|log| - 1];
      Total(log[..|log| - 1], user, hour) + if last.user == user && last.hour == hour then last.amount else 0
  }

  /** How many reservations of a user are in a stretch of the history. */
  ghost function Reservations(log: seq<Reservation>, user: User): nat {
    if log == [] then 0
    else Reservations(log[..|log| - 1], user) + if log[|log| - 1].user == user then 1 else 0
  }

  lemma {:induction false} ReservationsConcat(a: seq<Reservation>, b: seq<Reservation>, user: User)
    ensures Reservations(a + b, user) == Reservations(a, user) + Reservations(b, user)
  {
    if b == [] {
      assert a + b == a;
    } else {
      var init := b[..|b| - 1];
      assert (a + b)[..|a + b| - 1] == a + init;
      ReservationsConcat(a, init, user);
    }
  }

  /** A counter that rose since some moment was raised by a reservation since then. */
  lemma {:induction false} RiseMeansReservation(log: seq<Reservation>, from: nat, user: User, hour: nat)
    requires from <= |log|
    ensures Total(log[..from], user, hour) <= Total(log, user, hour)
    ensures Total(log[..from], user, hour) < Total(log, user, hour) ==> Reservations(log[from..], user) > 0
  {
    if from == |log| {
      assert log[..from] == log;
    } else {
      var init := log[..|log| - 1];
      RiseMeansReservation(init, from, user, hour);
      assert init[..from] == log[..from];
      assert log[from..] == init[from..] + [log[|log| - 1]];
      ReservationsConcat(init[from..], [log[|log| - 1]], user);
      assert Reservations([log[|log| - 1]], user) == if log[|log| - 1].user == user then 1 else 0;
    }
  }

  lemma {:induction false} NothingInLaterHours(log: seq<Reservation>, user: User, hour: nat)
    requires forall i | 0 <= i < |log| :: log[i].hour < hour
    ensures Total(log, user, hour) == 0
  {
    if log != [] {
      NothingInLaterHours(log[..|log| - 1], user, hour);
    }
  }

  // ------------------------------------------------------------------------
  // The invariant
  // ------------------------------------------------------------------------

  /** Each counter is the sum of what was reserved, and within the full cap. */
  ghost predicate CountersExact(full: nat, sys: System) {
    forall user: User, hour: nat {:trigger Count(sys, user, hour)} {:trigger Total(sys.log, user, hour)} ::
      Count(sys, user, hour) == Total(sys.log, user, hour) && Count(sys, user, hour) <= full
  }

  /** History runs forward, and every entry is the grant of its request. */
  ghost predicate LogGenuine(sys: System) {
    forall i | 0 <= i < |sys.log| ::
      && sys.log[i].hour <= sys.hour
      && sys.log[i].request in sys.requests
      && sys.requests[sys.log[i].request].user == sys.log[i].user
      && sys.requests[sys.log[i].request].phase.Granted?
      && sys.requests[sys.log[i].request].phase.amount == sys.log[i].amount
      && sys.requests[sys.log[i].request].phase.at == i
  }

  ghost predicate GrantLogged(sys: System, id: nat)
    requires id in sys.requests
  {
    var r := sys.requests[id];
    r.phase.Granted? ==>
      && r.phase.at < |sys.log| && sys.log[r.phase.at].request == id && sys.log[r.phase.at].user == r.user
      && sys.log[r.phase.at].amount == r.phase.amount
  }

  /** `amount` is the most of what `r` wants that fits under its cap on top of the counter it read. */
  ghost predicate Fits(log: seq<Reservation>, r: Request, amount: nat, hour: nat, readAt: nat)
    requires readAt <= |log|
  {
    var read := Total(log[..readAt], r.user, hour);
    amount + read <= r.cap && (amount == r.wanted || amount + read == r.cap)
  }

  /** A request is malformed exactly when it has no point, more than twenty, or one that does not
      decode. */
  ghost predicate JudgedRight(r: Request) {
    && r.wanted == |r.points|
    && (r.phase == Malformed <==> |r.points| == 0 || |r.points| > 20 || exists i :: 0 <= i < |r.points| && !r.points[i])
  }

  /** Every lost attempt of `r` was lost to a reservation made since `r` began. */
  ghost predicate LossesExplained(sys: System, r: Request) {
    && r.since <= |sys.log|
    && match r.phase
       case Reserving(want, readHour, readAt) =>
         && r.since <= readAt <= |sys.log| && readHour <= sys.hour && 0 < want <= r.wanted
         && Fits(sys.log, r, want, readHour, readAt)
         && (forall i | 0 <= i < readAt :: sys.log[i].hour <= readHour)
         && Reservations(sys.log[r.since..readAt], r.user) >= r.lost && r.lost < ATTEMPTS
       case Reading => r.wanted > 0 && Reservations(sys.log[r.since..], r.user) >= r.lost && r.lost < ATTEMPTS
       case Overtaken => Reservations(sys.log[r.since..], r.user) >= ATTEMPTS
       case Granted(amount, at, grantHour, grantReadAt) =>
         0 < amount <= r.wanted && grantReadAt <= |sys.log| && Fits(sys.log, r, amount, grantHour, grantReadAt)
       case SawFull(fullHour, fullAt) => fullAt <= |sys.log| && Total(sys.log[..fullAt], r.user, fullHour) >= r.cap
       case _ => true
  }

  ghost predicate RequestRight(full: nat, sys: System, id: nat)
    requires id in sys.requests
  {
    && LossesExplained(sys, sys.requests[id]) && GrantLogged(sys, id) && sys.requests[id].cap <= full
    && JudgedRight(sys.requests[id])
  }

  ghost predicate RequestsRight(full: nat, sys: System) {
    forall id | id in sys.requests :: RequestRight(full, sys, id)
  }

  ghost predicate Valid(full: nat, sys: System) {
    CountersExact(full, sys) && LogGenuine(sys) && RequestsRight(full, sys)
  }

  /** More history keeps every explanation. */
  lemma LossesStayExplained(sys: System, sys': System, r: Request)
    requires LossesExplained(sys, r)
    requires sys.log <= sys'.log && sys.hour <= sys'.hour
    ensures LossesExplained(sys', r)
  {
    var more := sys'.log[|sys.log|..];
    assert sys'.log[r.since..] == sys.log[r.since..] + more;
    ReservationsConcat(sys.log[r.since..], more, r.user);
    if r.phase.Reserving? {
      assert sys'.log[..r.phase.readAt] == sys.log[..r.phase.readAt];
      assert sys'.log[r.since..r.phase.readAt] == sys.log[r.since..r.phase.readAt];
    } else if r.phase.Granted? {
      assert sys'.log[..r.phase.grantReadAt] == sys.log[..r.phase.grantReadAt];
    } else if r.phase.SawFull? {
      assert sys'.log[..r.phase.fullAt] == sys.log[..r.phase.fullAt];
    }
  }

  /** `sys'` is `sys` after a step of request `id`, with the history kept. */
  ghost predicate StepOf(sys: System, sys': System, id: nat) {
    && sys.log <= sys'.log && sys.hour <= sys'.hour
    && (forall other | other in sys.requests :: other in sys'.requests)
    && (forall other | other in sys'.requests && other != id ::
          other in sys.requests && sys'.requests[other] == sys.requests[other])
  }

  lemma OthersStayRight(full: nat, sys: System, sys': System, id: nat)
    requires RequestsRight(full, sys) && StepOf(sys, sys', id)
    requires id in sys'.requests ==> RequestRight(full, sys', id)
    ensures RequestsRight(full, sys')
  {
    forall other | other in sys'.requests && other != id
      ensures RequestRight(full, sys', other)
    {
      assert RequestRight(full, sys, other);
      LossesStayExplained(sys, sys', sys.requests[other]);
    }
  }

  /** A step that reserves nothing, of a request that holds no grant. */
  lemma NothingReserved(full: nat, sys: System, sys': System, id: nat)
    requires Valid(full, sys) && StepOf(sys, sys', id)
    requires sys'.counts == sys.counts && sys'.log == sys.log
    requires id in sys.requests ==> !sys.requests[id].phase.Granted?
    requires id in sys'.requests ==> RequestRight(full, sys', id)
    ensures Valid(full, sys')
  {
    OthersStayRight(full, sys, sys', id);
    assert CountersExact(full, sys') by {
      assert forall u: User, t: nat :: Count(sys', u, t) == Count(sys, u, t);
    }
  }

  lemma ReadExplains(sys: System, id: nat)
    requires id in sys.requests && sys.requests[id].phase == Reading && LossesExplained(sys, sys.requests[id])
    requires Count(sys, sys.requests[id].user, sys.hour) == Total(sys.log, sys.requests[id].user, sys.hour)
    requires LogGenuine(sys)
    ensures LossesExplained(DoRead(sys, id), DoRead(sys, id).requests[id])
  {
    var r := sys.requests[id];
    assert sys.log[..|sys.log|] == sys.log && sys.log[r.since..|sys.log|] == sys.log[r.since..];
  }

  lemma ReadKeeps(full: nat, sys: System, id: nat)
    requires Valid(full, sys) && id in sys.requests && sys.requests[id].phase == Reading
    ensures Valid(full, DoRead(sys, id))
  {
    assert RequestRight(full, sys, id);
    ReadExplains(sys, id);
    NothingReserved(full, sys, DoRead(sys, id), id);
  }

  /** A reservation that fails lost to one made since its request read the counter. */
  lemma FailedReserveWasOvertaken(sys: System, r: Request)
    requires LossesExplained(sys, r) && r.phase.Reserving?
    requires Total(sys.log, r.user, sys.hour) + r.phase.want > r.cap
    ensures Reservations(sys.log[r.since..], r.user) >= r.lost + 1
  {
    var readAt := r.phase.readAt;
    if sys.hour != r.phase.readHour {
      NothingInLaterHours(sys.log[..readAt], r.user, sys.hour);
    }
    RiseMeansReservation(sys.log, readAt, r.user, sys.hour);
    assert sys.log[r.since..] == sys.log[r.since..readAt] + sys.log[readAt..];
    ReservationsConcat(sys.log[r.since..readAt], sys.log[readAt..], r.user);
  }

  lemma FailedReserveKeeps(full: nat, sys: System, id: nat)
    requires Valid(full, sys) && id in sys.requests && sys.requests[id].phase.Reserving?
    requires Count(sys, sys.requests[id].user, sys.hour) + sys.requests[id].phase.want > sys.requests[id].cap
    ensures Valid(full, DoReserve(sys, id))
  {
    var r := sys.requests[id];
    assert RequestRight(full, sys, id);
    assert Count(sys, r.user, sys.hour) == Total(sys.log, r.user, sys.hour);
    FailedReserveWasOvertaken(sys, r);
    NothingReserved(full, sys, DoReserve(sys, id), id);
  }

  /** A reservation adds to one counter what it adds to the history. */
  lemma GrantedCounters(full: nat, sys: System, id: nat)
    requires CountersExact(full, sys) && id in sys.requests && sys.requests[id].phase.Reserving?
    requires Count(sys, sys.requests[id].user, sys.hour) + sys.requests[id].phase.want <= sys.requests[id].cap <= full
    ensures CountersExact(full, DoReserve(sys, id))
  {
    var sys' := DoReserve(sys, id);
    assert sys'.log[..|sys.log|] == sys.log;
    forall u: User, t: nat
      ensures Count(sys', u, t) == Total(sys'.log, u, t) && Count(sys', u, t) <= full
    {
      assert Count(sys, u, t) == Total(sys.log, u, t);
    }
  }

  ghost predicate CanReserve(sys: System, id: nat) {
    && id in sys.requests && sys.requests[id].phase.Reserving?
    && Count(sys, sys.requests[id].user, sys.hour) + sys.requests[id].phase.want <= sys.requests[id].cap
  }

  lemma GrantedLog(sys: System, id: nat)
    requires LogGenuine(sys) && CanReserve(sys, id)
    ensures LogGenuine(DoReserve(sys, id))
  {
  }

  lemma GrantedRequest(full: nat, sys: System, id: nat)
    requires CanReserve(sys, id) && RequestRight(full, sys, id)
    ensures RequestRight(full, DoReserve(sys, id), id) && StepOf(sys, DoReserve(sys, id), id)
  {
    var readAt := sys.requests[id].phase.readAt;
    assert DoReserve(sys, id).log[..readAt] == sys.log[..readAt];
  }

  lemma GrantedReserveKeeps(full: nat, sys: System, id: nat)
    requires Valid(full, sys) && id in sys.requests && sys.requests[id].phase.Reserving?
    requires Count(sys, sys.requests[id].user, sys.hour) + sys.requests[id].phase.want <= sys.requests[id].cap
    ensures Valid(full, DoReserve(sys, id))
  {
    assert RequestRight(full, sys, id);
    GrantedCounters(full, sys, id);
    GrantedLog(sys, id);
    GrantedRequest(full, sys, id);
    OthersStayRight(full, sys, DoReserve(sys, id), id);
  }

  lemma ArriveKeeps(full: nat, sys: System, id: nat, user: User, points: seq<bool>, cap: nat)
    requires Valid(full, sys) && id !in sys.requests && cap <= full
    ensures Valid(full, Step(full, sys, Arrive(id, user, points, cap)))
  {
    assert sys.log[|sys.log|..] == [];
    NothingReserved(full, sys, Step(full, sys, Arrive(id, user, points, cap)), id);
  }

  lemma NextHourKeeps(full: nat, sys: System)
    requires Valid(full, sys)
    ensures Valid(full, sys.(hour := sys.hour + 1))
  {
    var sys' := sys.(hour := sys.hour + 1);
    forall id | id in sys.requests
      ensures RequestRight(full, sys', id)
    {
      assert RequestRight(full, sys, id);
      LossesStayExplained(sys, sys', sys.requests[id]);
    }
    assert forall u: User, t: nat :: Count(sys', u, t) == Count(sys, u, t);
  }

  lemma StepKeeps(full: nat, sys: System, a: Action)
    requires Valid(full, sys)
    ensures Valid(full, Step(full, sys, a))
  {
    match a
    case Arrive(id, user, points, cap) =>
      if id !in sys.requests && cap <= full {
        ArriveKeeps(full, sys, id, user, points, cap);
      }
    case Read(id) =>
      if id in sys.requests && sys.requests[id].phase == Reading {
        ReadKeeps(full, sys, id);
      }
    case Reserve(id) =>
      if id in sys.requests && sys.requests[id].phase.Reserving? {
        if Count(sys, sys.requests[id].user, sys.hour) + sys.requests[id].phase.want <= sys.requests[id].cap {
          GrantedReserveKeeps(full, sys, id);
        } else {
          FailedReserveKeeps(full, sys, id);
        }
      }
    case NextHour => NextHourKeeps(full, sys);
  }

  lemma {:induction false} RunIsValid(full: nat, actions: seq<Action>)
    ensures Valid(full, Run(full, actions))
  {
    if actions != [] {
      RunIsValid(full, actions[..|actions| - 1]);
      StepKeeps(full, Run(full, actions[..|actions| - 1]), actions[|actions| - 1]);
    }
  }

  /** Issuance in every run of concurrent requests: an hourly counter is exactly what was
      reserved in that hour and never exceeds the full cap; the reservations are the granted
      batches, one for one, each all that was asked for or all that was left when it read the
      counter; just the malformed requests are refused as such; and a refused request read a full
      counter or was overtaken by at least three reservations of other requests since it
      arrived. */
  lemma IssuanceOverEveryRun(full: nat, actions: seq<Action>, user: User, hour: nat)
    ensures var sys := Run(full, actions);
            && Count(sys, user, hour) == Total(sys.log, user, hour) <= full
            && (forall i | 0 <= i < |sys.log| ::
                  && sys.log[i].request in sys.requests
                  && sys.requests[sys.log[i].request].phase.Granted?
                  && sys.requests[sys.log[i].request].phase.amount == sys.log[i].amount
                  && sys.requests[sys.log[i].request].phase.at == i)
            && (forall id | id in sys.requests ::
                  var r := sys.requests[id];
                  JudgedRight(r) &&
                  match r.phase
                  case Granted(amount, at, grantHour, readAt) =>
                    && 0 < amount <= r.wanted && at < |sys.log| && sys.log[at].request == id && sys.log[at].amount == amount
                    && readAt <= |sys.log|
                    && (amount == r.wanted || amount + Total(sys.log[..readAt], r.user, grantHour) == r.cap)
                  case SawFull(fullHour, fullAt) =>
                    fullAt <= |sys.log| && Total(sys.log[..fullAt], r.user, fullHour) >= r.cap
                  case Overtaken => r.since <= |sys.log| && Reservations(sys.log[r.since..], r.user) >= 3
                  case _ => true)
  {
    RunIsValid(full, actions);
    var sys := Run(full, actions);
    assert forall id | id in sys.requests :: RequestRight(full, sys, id);
  }

  lemma RunLast(full: nat, actions: seq<Action>, a: Action)
    ensures Run(full, actions + [a]) == Step(full, Run(full, actions), a)
  {
    assert (actions + [a])[..|actions|] == actions;
  }

  /** A request that meets no other, in a fresh hour: a well-formed one under any cap up to the full
      one gets all it asks for, or the whole cap if that is less. */
  lemma FirstRequestIsGranted(full: nat, user: User, points: seq<bool>, cap: nat)
    requires 0 < cap <= full && 0 < |points| <= 20 && forall i | 0 <= i < |points| :: points[i]
    ensures var sys := Run(full, [] + [Arrive(1, user, points, cap)] + [Read(1)] + [Reserve(1)]);
            var amount := if |points| < cap then |points| else cap;
            && 1 in sys.requests && sys.requests[1].phase.Granted? && sys.requests[1].phase.amount == amount
            && Count(sys, user, 0) == amount
  {
    var t1 := [] + [Arrive(1, user, points, cap)];
    RunLast(full, [], Arrive(1, user, points, cap));
    RunLast(full, t1, Read(1));
    RunLast(full, t1 + [Read(1)], Reserve(1));
  }

  // ------------------------------------------------------------------------
  // One request, with the other replicas' reservations in between
  // ------------------------------------------------------------------------

  datatype Refusal = BadBatchSize | BadPoint | Exhausted

  /** How many of the three rounds saw another replica reserve between read and reserve. */
  ghost function Disturbed(between: seq<nat>): nat {
    if between == [] then 0
    else Disturbed(between[..|between| - 1]) + if between[|between| - 1] > 0 then 1 else 0
  }

  ghost function Sum(s: seq<nat>): nat {
    if s == [] then 0 else Sum(s[..|s| - 1]) + s[|s| - 1]
  }

  class HourCounter {
    var count: nat

    constructor ()
      ensures count == 0
    {
      count := 0;
    }

    method TryReserve(want: nat, cap: nat) returns (got: nat)
      modifies this
      ensures got == (if want > 0 && old(count) + want <= cap then want else 0)
      ensures count == old(count) + got
    {
      if want == 0 || count + want > cap {
        return 0;
      }
      count := count + want;
      return want;
    }

    /** The source's loop. `between[i]` is what other replicas reserve between the read and the
        reservation of round `i`. `sawFull` tells which refusal it was; `rounds` how far it got. */
    method ReserveUpTo(n: nat, cap: nat, between: seq<nat>) returns (grant: nat, sawFull: bool, rounds: nat)
      requires n > 0 && |between| == ATTEMPTS
      modifies this
      ensures rounds <= ATTEMPTS && count == old(count) + Sum(between[..rounds]) + grant
      ensures grant > 0 ==> grant <= n && count <= cap
      ensures grant == 0 && sawFull ==> count >= cap
      ensures grant == 0 && !sawFull ==> rounds == ATTEMPTS && Disturbed(between) == ATTEMPTS
      ensures between[0] == 0 ==> grant == Grant(old(count), n, cap)
      ensures grant > 0 ==> rounds > 0 && grant == Grant(old(count) + Sum(between[..rounds - 1]), n, cap)
    {
      grant, sawFull, rounds := 0, false, 0;
      while rounds < ATTEMPTS
        invariant rounds <= ATTEMPTS && grant == 0 && !sawFull
        invariant count == old(count) + Sum(between[..rounds])
        invariant Disturbed(between[..rounds]) == rounds
        invariant rounds > 0 ==> between[0] > 0
        decreases ATTEMPTS - rounds
      {
        var already := count;
        var want := Grant(already, n, cap);
        if want == 0 {
          sawFull := true;
          break;
        }
        assert between[..rounds + 1][..rounds] == between[..rounds];
        count := count + between[rounds];
        rounds := rounds + 1;
        var got := TryReserve(want, cap);
        if got > 0 {
          grant := got;
          break;
        }
      }
      assert between[..ATTEMPTS] == between;
    }

    /** Validate, reserve, evaluate. `decode` is none for bytes that are not a usable point;
        `evaluate` multiplies a point by the issuer's key. `rounds` is how far the reserve loop
        got: what others reserved until then and the evaluated points are all that was counted. */
    method IssueTokens<Point>(
        raw: seq<Bytes>, decode: Bytes -> Option<Point>, evaluate: Point -> Bytes, cap: nat, between: seq<nat>)
      returns (r: Result<seq<Bytes>, Refusal>, rounds: nat)
      requires |between| == ATTEMPTS
      modifies this
      ensures rounds <= ATTEMPTS
      ensures count == old(count) + Sum(between[..rounds]) + if r.Ok? then |r.value| else 0
      ensures r.Err? && r.error != Exhausted ==> rounds == 0 && count == old(count)
      ensures (r.Err? && r.error != Exhausted) <==>
              !(0 < |raw| <= MAX_BATCH && forall i | 0 <= i < |raw| :: |raw[i]| == 32 && decode(raw[i]).Some?)
      ensures r.Ok? ==>
                && 0 < |r.value| <= |raw| && count <= cap
                && forall i | 0 <= i < |r.value| :: decode(raw[i]).Some? && r.value[i] == evaluate(decode(raw[i]).value)
      ensures r.Ok? ==> rounds > 0 && |r.value| == Grant(old(count) + Sum(between[..rounds - 1]), |raw|, cap)
      ensures r == Err(Exhausted) ==> count >= cap || (rounds == ATTEMPTS && Disturbed(between) == ATTEMPTS)
    {
      if |raw| == 0 || |raw| > MAX_BATCH {
        return Err(BadBatchSize), 0;
      }
      var points: seq<Point> := [];
      for i := 0 to |raw|
        invariant count == old(count) && |points| == i
        invariant forall j | 0 <= j < i :: |raw[j]| == 32 && decode(raw[j]) == Some(points[j])
      {
        if |raw[i]| != 32 {
          return Err(BadPoint), 0;
        }
        var p := decode(raw[i]);
        if p.None? {
          return Err(BadPoint), 0;
        }
        points := points + [p.value];
      }
      var grant, _, done := ReserveUpTo(|points|, cap, between);
      if grant == 0 {
        return Err(Exhausted), done;
      }
      var evaluated: seq<Bytes> := [];
      for i := 0 to grant
        invariant |evaluated| == i
        invariant forall j | 0 <= j < i :: evaluated[j] == evaluate(points[j])
      {
        evaluated := evaluated + [evaluate(points[i])];
      }
      return Ok(evaluated), done;
    }
  }
}
