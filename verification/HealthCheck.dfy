/**
  The health check of a container (deploy/src/health.rs, deploy-docker/src/probe.rs, deploy-docker/src/backend.rs):
  attempts in any number, each an inspection and a request, and what a pass says about the container that answered.
 */
module HealthCheck {
  import opened Bytes

  datatype Published = Published(tcp: bool, containerPort: nat, hostPort: nat, hostIp: string)

  datatype Info = Info(running: bool, id: string, imageId: string, startedAt: string, restarts: nat,
                       published: seq<Published>)

  datatype Inspect = Found(info: Info) | Gone | Failed

  /** What the transport reports; without a gate an unmarked answer is a failure to the caller. */
  datatype Response = Matched(status: nat) | Unmarked(status: nat) | NoAnswer

  /** What a proof of the path would find now: Docker's report, and the proof's own answer for that route. */
  datatype PathFact = PathFact(inspect: Inspect, proves: bool)

  /** What one attempt meets, and whether the deadline is past after it. */
  datatype Tick = Tick(inspect: Inspect, response: Response, path: PathFact, timeUp: bool)

  datatype Baseline = Baseline(id: string, imageId: string, startedAt: string, restarts: nat)

  datatype Ports = Ports(containerPort: nat, hostPort: nat)

  // ---------------------------------------------------------------- identity and path

  /** Nothing unless every fact is known. */
  function BaselineOf(c: Info): Option<Baseline> {
    if c.running && c.id != "" && c.imageId != "" && c.startedAt != ""
    then Some(Baseline(c.id, c.imageId, c.startedAt, c.restarts)) else None
  }

  predicate Differs(b: Baseline, c: Info) {
    b != Baseline(c.id, c.imageId, c.startedAt, c.restarts)
  }

  predicate AnyAddress(ip: string) {
    ip == "" || ip == "0.0.0.0" || ip == "::"
  }

  /** Docker publishes something, and nothing but the leased port. */
  predicate MappingOk(c: Info, ports: Ports) {
    && (exists i | 0 <= i < |c.published| :: c.published[i].tcp)
    && forall i | 0 <= i < |c.published| && c.published[i].tcp ::
         var p := c.published[i];
         p.containerPort == ports.containerPort && p.hostPort == ports.hostPort
         && (AnyAddress(p.hostIp) || p.hostIp == "127.0.0.1")
  }

  /** Every published address of the port leads the same way, so it is known which path answers. */
  predicate OneRoute(c: Info, ports: Ports) {
    forall i, j | 0 <= i < |c.published| && 0 <= j < |c.published| ::
      var p, q := c.published[i], c.published[j];
      p.tcp && q.tcp && p.containerPort == ports.containerPort == q.containerPort
      ==> (AnyAddress(p.hostIp) <==> AnyAddress(q.hostIp))
  }

  /** `prove_now`. */
  predicate PathProven(f: PathFact, ports: Ports) {
    f.inspect.Found? && f.inspect.info.running && MappingOk(f.inspect.info, ports) && OneRoute(f.inspect.info, ports)
    && f.proves
  }

  predicate SeenRunning(t: Tick) {
    t.inspect.Found? && t.inspect.info.running
  }

  // ---------------------------------------------------------------- what the attempts so far amount to

  /** The identity recorded in the first `i` attempts: that of the first running container with all its facts known. */
  function Recorded(ticks: seq<Tick>, i: nat): Option<Baseline>
    requires i <= |ticks|
  {
    if i == 0 then None
    else
      var before := Recorded(ticks, i - 1);
      if before.Some? || !SeenRunning(ticks[i - 1]) then before else BaselineOf(ticks[i - 1].inspect.info)
  }

  /** Attempt `j` found a running container that is not the recorded one. */
  predicate FoundOther(ticks: seq<Tick>, j: nat)
    requires j < |ticks|
  {
    SeenRunning(ticks[j]) && Recorded(ticks, j).Some? && Differs(Recorded(ticks, j).value, ticks[j].inspect.info)
  }

  ghost predicate FoundOtherBy(ticks: seq<Tick>, i: nat)
    requires i <= |ticks|
  {
    exists j :: 0 <= j < i && FoundOther(ticks, j)
  }

  /** Attempt `j` got an unmarked success from the recorded container, so the gate is asked. */
  predicate Asks(ticks: seq<Tick>, j: nat)
    requires j < |ticks|
  {
    SeenRunning(ticks[j]) && !FoundOther(ticks, j) && Recorded(ticks, j + 1).Some?
    && ticks[j].response.Unmarked? && 200 <= ticks[j].response.status < 300
  }

  /** The gate was asked at attempt `j` and the path was proven there. */
  predicate ProvesAt(ticks: seq<Tick>, j: nat, ports: Ports)
    requires j < |ticks|
  {
    Asks(ticks, j) && PathProven(ticks[j].path, ports)
  }

  ghost predicate ProvenBy(ticks: seq<Tick>, i: nat, ports: Ports)
    requires i <= |ticks|
  {
    exists j :: 0 <= j < i && ProvesAt(ticks, j, ports)
  }

  datatype Observation = Status(status: nat) | ConnectFailed | ContainerExited

  /** What attempt `j` is to observe. */
  ghost function ObservationAt(gated: bool, ticks: seq<Tick>, j: nat, ports: Ports): Observation
    requires j < |ticks|
  {
    var t := ticks[j];
    if t.inspect.Failed? then ConnectFailed
    else if !SeenRunning(t) then ContainerExited
    else if gated && FoundOther(ticks, j) then ConnectFailed
    else
      match t.response
      case Matched(s) => Status(s)
      case NoAnswer => ConnectFailed
      case Unmarked(s) =>
        if gated && (!(200 <= s < 300) || (Asks(ticks, j) && ProvenBy(ticks, j + 1, ports))) then Status(s)
        else ConnectFailed
  }

  lemma ProvenNext(ticks: seq<Tick>, i: nat, ports: Ports)
    requires i < |ticks|
    ensures ProvenBy(ticks, i + 1, ports) <==> ProvenBy(ticks, i, ports) || ProvesAt(ticks, i, ports)
  {
  }

  lemma FoundNext(ticks: seq<Tick>, i: nat)
    requires i < |ticks|
    ensures FoundOtherBy(ticks, i + 1) <==> FoundOtherBy(ticks, i) || FoundOther(ticks, i)
  {
  }

  // ---------------------------------------------------------------- the cells of one check

  datatype Attempt = Attempt(observation: Observation, running: bool)

  class Probe {
    const gated: bool
    const ports: Ports
    var baseline: Option<Baseline>
    var changed: bool
    var usedUnmarked: bool
    var proven: bool

    constructor (gated: bool, ports: Ports)
      ensures this.gated == gated && this.ports == ports
      ensures baseline == None && !changed && !usedUnmarked && !proven
    {
      this.gated, this.ports := gated, ports;
      baseline, changed, usedUnmarked, proven := None, false, false, false;
    }

    /** The cells say what the first `i` attempts amount to. */
    ghost predicate Tells(ticks: seq<Tick>, i: nat)
      requires i <= |ticks|
      reads this
    {
      && (gated ==> baseline == Recorded(ticks, i) && (changed <==> FoundOtherBy(ticks, i)))
      && (!gated ==> baseline == None && !changed && !usedUnmarked)
      && (proven <==> gated && ProvenBy(ticks, i, ports))
      && usedUnmarked == proven
    }

    /** The gate proves the path once; after that it is open. */
    method Accept(f: PathFact) returns (ok: bool)
      modifies this`proven
      ensures ok == (old(proven) || PathProven(f, ports)) && proven == ok
    {
      if !proven && PathProven(f, ports) {
        proven := true;
      }
      ok := proven;
    }

    method Try(t: Tick, ghost ticks: seq<Tick>, ghost i: nat) returns (a: Attempt)
      requires i < |ticks| && ticks[i] == t && Tells(ticks, i)
      modifies this
      ensures Tells(ticks, i + 1)
      ensures a.observation == ObservationAt(gated, ticks, i, ports)
      ensures a.running <==> !a.observation.ContainerExited?
    {
      hide PathProven, BaselineOf;
      ProvenNext(ticks, i, ports);
      FoundNext(ticks, i);
      match t.inspect
      case Gone => a := Attempt(ContainerExited, false);
      case Failed => a := Attempt(ConnectFailed, true);
      case Found(c) =>
        if !c.running {
          return Attempt(ContainerExited, false);
        }
        if gated {
          if baseline.Some? {
            if Differs(baseline.value, c) {
              changed := true;
              return Attempt(ConnectFailed, true);
            }
          } else {
            baseline := BaselineOf(c);
          }
        }
        match t.response
        case Matched(s) => a := Attempt(Status(s), true);
        case NoAnswer => a := Attempt(ConnectFailed, true);
        case Unmarked(s) =>
          if !gated {
            a := Attempt(ConnectFailed, true);
          } else if 200 <= s < 300 {
            if baseline.None? {
              a := Attempt(ConnectFailed, true);
            } else {
              var ok := Accept(t.path);
              usedUnmarked := usedUnmarked || ok;
              a := Attempt(if ok then Status(s) else ConnectFailed, true);
            }
          } else {
            a := Attempt(Status(s), true);
          }
    }
  }

  // ---------------------------------------------------------------- the attempts

  datatype Verdict = Healthy | NotHealthy | Exited

  datatype Evidence = Evidence(good: seq<bool>, required: nat, reached: nat, verdict: Verdict)

  /** The successes at the end. */
  function Trailing(good: seq<bool>): nat {
    if good == [] || !good[|good| - 1] then 0 else 1 + Trailing(good[..|good| - 1])
  }

  const MAX_U8: nat := 255

  predicate Validates(e: Evidence) {
    && e.verdict == Healthy && e.required > 0 && e.good != []
    && Trailing(e.good) >= e.required
    && e.reached == if Trailing(e.good) > MAX_U8 then MAX_U8 else Trailing(e.good)
  }

  /** Which of the first `n` attempts succeed. */
  ghost function GoodOf(gated: bool, ticks: seq<Tick>, n: nat, ports: Ports, accepts: nat -> bool): (r: seq<bool>)
    requires n <= |ticks|
    ensures |r| == n
  {
    if n == 0 then []
    else
      var o := ObservationAt(gated, ticks, n - 1, ports);
      GoodOf(gated, ticks, n - 1, ports, accepts) + [o.Status? && accepts(o.status)]
  }

  ghost function RunAt(gated: bool, ticks: seq<Tick>, n: nat, ports: Ports, accepts: nat -> bool): nat
    requires n <= |ticks|
  {
    Trailing(GoodOf(gated, ticks, n, ports, accepts))
  }

  ghost predicate ExitsAt(gated: bool, ticks: seq<Tick>, n: nat, ports: Ports)
    requires n <= |ticks|
  {
    n > 0 && ObservationAt(gated, ticks, n - 1, ports).ContainerExited?
  }

  /** After `m` attempts there is no reason to stop: no exit, not enough successes in a row, time left. */
  ghost predicate GoesOn(gated: bool, ticks: seq<Tick>, m: nat, ports: Ports, accepts: nat -> bool, required: nat)
    requires m <= |ticks|
  {
    && !ExitsAt(gated, ticks, m, ports)
    && (required > 0 ==> RunAt(gated, ticks, m, ports, accepts) < required)
    && (m > 0 ==> !ticks[m - 1].timeUp)
  }

  /** The most successes in a row. */
  function Longest(good: seq<bool>): nat {
    if good == [] then 0 else Max(Longest(good[..|good| - 1]), Trailing(good))
  }

  lemma LongestNext(good: seq<bool>, ok: bool)
    ensures var run := Trailing(good + [ok]);
            Longest(good + [ok]) == if run > Longest(good) then run else Longest(good)
    ensures Trailing(good + [ok]) == if ok then Trailing(good) + 1 else 0
  {
    assert (good + [ok])[..|good|] == good;
  }

  /** Successes in a row. */
  predicate InARow(good: seq<bool>, i: int, n: nat) {
    0 <= i && i + n <= |good| && forall k :: i <= k < i + n ==> good[k]
  }

  /** Some successes in a row are as many, and none are more. */
  lemma {:induction false} LongestIff(good: seq<bool>)
    ensures exists i :: InARow(good, i, Longest(good))
    ensures forall i, n: nat :: InARow(good, i, n) ==> n <= Longest(good)
  {
    if good == [] {
      assert InARow(good, 0, Longest(good));
    } else {
      var front := good[..|good| - 1];
      LongestIff(front);
      TrailingAll(good);
      forall i, n: nat | InARow(good, i, n) ensures n <= Longest(good) {
        if i + n == |good| {
          TrailingIff(good, n);
        } else {
          assert InARow(front, i, n);
        }
      }
      if Longest(good) == Trailing(good) {
        assert InARow(good, |good| - Trailing(good), Longest(good));
      } else {
        var i :| InARow(front, i, Longest(front));
        assert InARow(good, i, Longest(good));
      }
    }
  }

  lemma GoesOnIs(gated: bool, ticks: seq<Tick>, m: nat, ports: Ports, accepts: nat -> bool, required: nat)
    requires m <= |ticks|
    ensures GoesOn(gated, ticks, m, ports, accepts, required) <==>
            && !ExitsAt(gated, ticks, m, ports)
            && (required > 0 ==> RunAt(gated, ticks, m, ports, accepts) < required)
            && (m > 0 ==> !ticks[m - 1].timeUp)
  {
    hide ExitsAt, RunAt;
  }

  /** One attempt, and whether it succeeded or found the container gone. */
  method TryOnce(probe: Probe, t: Tick, accepts: nat -> bool, ghost ticks: seq<Tick>, ghost k: nat)
    returns (ok: bool, exited: bool)
    requires k < |ticks| && ticks[k] == t && probe.Tells(ticks, k)
    modifies probe
    ensures probe.Tells(ticks, k + 1) && !(ok && exited)
    ensures exited <==> ExitsAt(probe.gated, ticks, k + 1, probe.ports)
    ensures GoodOf(probe.gated, ticks, k + 1, probe.ports, accepts)
         == GoodOf(probe.gated, ticks, k, probe.ports, accepts) + [ok]
    ensures RunAt(probe.gated, ticks, k + 1, probe.ports, accepts)
         == if ok then RunAt(probe.gated, ticks, k, probe.ports, accepts) + 1 else 0
  {
    hide FoundOther, ObservationAt, GoodOf, RunAt, Probe.Tells;
    RunNext(probe.gated, ticks, k, probe.ports, accepts);
    var a := probe.Try(t, ticks, k);
    ok := a.observation.Status? && accepts(a.observation.status) && a.running;
    exited := a.observation.ContainerExited? || !a.running;
  }

  /** `run_health`: until enough successes in a row, the container's exit or the deadline. */
  method RunHealth(probe: Probe, ticks: seq<Tick>, required: nat, accepts: nat -> bool)
    returns (ev: Evidence, n: nat)
    requires required <= MAX_U8 && probe.Tells(ticks, 0)
    modifies probe
    ensures n <= |ticks| && probe.Tells(ticks, n)
    ensures ev.good == GoodOf(probe.gated, ticks, n, probe.ports, accepts) && ev.required == required
    ensures forall m :: 0 <= m < n ==> GoesOn(probe.gated, ticks, m, probe.ports, accepts, required)
    ensures n < |ticks| ==> !GoesOn(probe.gated, ticks, n, probe.ports, accepts, required)
    ensures ev.verdict == Exited <==> ExitsAt(probe.gated, ticks, n, probe.ports)
    ensures ev.verdict == Healthy <==>
              && !ExitsAt(probe.gated, ticks, n, probe.ports) && required > 0
              && RunAt(probe.gated, ticks, n, probe.ports, accepts) == required
    ensures ev.verdict == Healthy ==> Validates(ev)
    ensures ev.reached == Longest(ev.good)
  {
    hide *;
    var good: seq<bool>, run, best := [], 0, 0;
    var k := 0;
    RunNone(probe.gated, ticks, probe.ports, accepts);
    GoesOnIs(probe.gated, ticks, 0, probe.ports, accepts, required);
    while k < |ticks|
      invariant k <= |ticks| && probe.Tells(ticks, k)
      invariant good == GoodOf(probe.gated, ticks, k, probe.ports, accepts)
      invariant run == RunAt(probe.gated, ticks, k, probe.ports, accepts)
      invariant best == Longest(good) && run == Trailing(good) && (required > 0 ==> best < required)
      invariant forall m :: 0 <= m <= k ==> GoesOn(probe.gated, ticks, m, probe.ports, accepts, required)
    {
      GoesOnIs(probe.gated, ticks, k, probe.ports, accepts, required);
      GoesOnIs(probe.gated, ticks, k + 1, probe.ports, accepts, required);
      var ok, exited := TryOnce(probe, ticks[k], accepts, ticks, k);
      LongestNext(good, ok);
      good := good + [ok];
      k := k + 1;
      if exited {
        return Evidence(good, required, best, Exited), k;
      }
      run := if ok then run + 1 else 0;
      best := if run > best then run else best;
      if required > 0 && run >= required {
        HealthyValidates(good, required, probe.gated, ticks, k, probe.ports, accepts);
        return Evidence(good, required, run, Healthy), k;
      }
      if ticks[k - 1].timeUp {
        return Evidence(good, required, best, NotHealthy), k;
      }
    }
    GoesOnIs(probe.gated, ticks, k, probe.ports, accepts, required);
    return Evidence(good, required, best, NotHealthy), k;
  }

  lemma RunNone(gated: bool, ticks: seq<Tick>, ports: Ports, accepts: nat -> bool)
    ensures GoodOf(gated, ticks, 0, ports, accepts) == [] && RunAt(gated, ticks, 0, ports, accepts) == 0
    ensures !ExitsAt(gated, ticks, 0, ports) && Longest([]) == 0 == Trailing([])
  {
  }

  lemma RunNext(gated: bool, ticks: seq<Tick>, k: nat, ports: Ports, accepts: nat -> bool)
    requires k < |ticks|
    ensures var o := ObservationAt(gated, ticks, k, ports);
            var ok := o.Status? && accepts(o.status);
            && GoodOf(gated, ticks, k + 1, ports, accepts) == GoodOf(gated, ticks, k, ports, accepts) + [ok]
            && RunAt(gated, ticks, k + 1, ports, accepts)
               == if ok then RunAt(gated, ticks, k, ports, accepts) + 1 else 0
  {
    hide ObservationAt;
    var o := ObservationAt(gated, ticks, k, ports);
    var before := GoodOf(gated, ticks, k, ports, accepts);
    assert (before + [o.Status? && accepts(o.status)])[..|before|] == before;
  }

  lemma HealthyValidates(good: seq<bool>, required: nat, gated: bool, ticks: seq<Tick>, k: nat, ports: Ports,
                         accepts: nat -> bool)
    requires 0 < k <= |ticks| && good == GoodOf(gated, ticks, k, ports, accepts) && 0 < required <= MAX_U8
    requires RunAt(gated, ticks, k, ports, accepts) == required
    ensures Validates(Evidence(good, required, required, Healthy)) && Trailing(good) == required
  {
    hide GoodOf;
  }

  // ---------------------------------------------------------------- what an attempt's success means

  /** Docker told all facts that identify the running container. */
  predicate Identified(t: Tick) {
    && SeenRunning(t)
    && t.inspect.info.id != "" && t.inspect.info.imageId != "" && t.inspect.info.startedAt != ""
  }

  /** `k` is the first attempt, among the first `i`, that identified the container. */
  ghost predicate FirstIdentified(ticks: seq<Tick>, i: nat, k: int)
    requires i <= |ticks|
  {
    0 <= k < i && Identified(ticks[k]) && forall j :: 0 <= j < k ==> !Identified(ticks[j])
  }

  ghost predicate SomeIdentified(ticks: seq<Tick>, i: nat)
    requires i <= |ticks|
  {
    exists k :: FirstIdentified(ticks, i, k)
  }

  /** The same container: its id, its image, its start and its restarts. */
  predicate SameOne(a: Tick, b: Tick)
    requires SeenRunning(a) && SeenRunning(b)
  {
    && a.inspect.info.id == b.inspect.info.id && a.inspect.info.imageId == b.inspect.info.imageId
    && a.inspect.info.startedAt == b.inspect.info.startedAt && a.inspect.info.restarts == b.inspect.info.restarts
  }

  /** Attempt `i` found a running container other than the one identified first. */
  ghost predicate Another(ticks: seq<Tick>, i: nat)
    requires i < |ticks|
  {
    SeenRunning(ticks[i]) && exists k :: FirstIdentified(ticks, i, k) && !SameOne(ticks[k], ticks[i])
  }

  /** What is recorded are the facts of the first attempt that identified the container. */
  lemma {:induction false} RecordedIff(ticks: seq<Tick>, i: nat)
    requires i <= |ticks|
    ensures Recorded(ticks, i).Some? <==> SomeIdentified(ticks, i)
    ensures forall k :: FirstIdentified(ticks, i, k) ==>
              var c := ticks[k].inspect.info;
              Recorded(ticks, i) == Some(Baseline(c.id, c.imageId, c.startedAt, c.restarts))
  {
    if i > 0 {
      RecordedIff(ticks, i - 1);
      if SomeIdentified(ticks, i - 1) {
        var k :| FirstIdentified(ticks, i - 1, k);
        assert FirstIdentified(ticks, i, k);
      } else if Identified(ticks[i - 1]) {
        NoneIdentified(ticks, i - 1);
        assert FirstIdentified(ticks, i, i - 1);
      }
      forall k | FirstIdentified(ticks, i, k) ensures k < i - 1 ==> FirstIdentified(ticks, i - 1, k) {}
    }
  }

  lemma IdentifiedLater(ticks: seq<Tick>, i: nat)
    requires 0 < i <= |ticks|
    ensures SomeIdentified(ticks, i - 1) ==> SomeIdentified(ticks, i)
  {
    if SomeIdentified(ticks, i - 1) {
      var k :| FirstIdentified(ticks, i - 1, k);
      assert FirstIdentified(ticks, i, k);
    }
  }

  lemma {:induction false} NoneIdentified(ticks: seq<Tick>, i: nat)
    requires i <= |ticks| && !SomeIdentified(ticks, i)
    ensures forall j :: 0 <= j < i ==> !Identified(ticks[j])
  {
    if i > 0 {
      IdentifiedLater(ticks, i);
      NoneIdentified(ticks, i - 1);
      if Identified(ticks[i - 1]) {
        assert FirstIdentified(ticks, i, i - 1);
      }
    }
  }

  lemma OtherIff(ticks: seq<Tick>, i: nat)
    requires i < |ticks|
    ensures FoundOther(ticks, i) <==> Another(ticks, i)
  {
    RecordedIff(ticks, i);
    hide Recorded;
  }

  /** At attempt `k` an identified container gave an unmarked success, and the path to it was proven. */
  ghost predicate Proves(ticks: seq<Tick>, k: nat, ports: Ports)
    requires k < |ticks|
  {
    && SeenRunning(ticks[k]) && !Another(ticks, k) && SomeIdentified(ticks, k + 1)
    && ticks[k].response.Unmarked? && 200 <= ticks[k].response.status < 300
    && PathProven(ticks[k].path, ports)
  }

  /** An answer that counts: one with the marker, or, with a gate, one without it that the gate lets through. */
  ghost predicate Counts(gated: bool, ticks: seq<Tick>, i: nat, ports: Ports, accepts: nat -> bool)
    requires i < |ticks|
  {
    match ticks[i].response
    case Matched(s) => accepts(s)
    case NoAnswer => false
    case Unmarked(s) =>
      && gated && accepts(s)
      && (200 <= s < 300 ==>
            SomeIdentified(ticks, i + 1) && exists k :: 0 <= k <= i && Proves(ticks, k, ports))
  }

  /**
    An attempt succeeds exactly when it found the container running, it is the one identified first (when unmarked
    answers may count), and its answer counts.
   */
  lemma {:induction false} SuccessIff(gated: bool, ticks: seq<Tick>, n: nat, ports: Ports, accepts: nat -> bool, i: nat)
    requires i < n <= |ticks|
    ensures GoodOf(gated, ticks, n, ports, accepts)[i]
       <==> SeenRunning(ticks[i]) && !(gated && Another(ticks, i)) && Counts(gated, ticks, i, ports, accepts)
    decreases n
  {
    if i < n - 1 {
      hide ObservationAt, Counts, Another;
      SuccessIff(gated, ticks, n - 1, ports, accepts, i);
    } else {
      ObservedIff(gated, ticks, i, ports, accepts);
      hide ObservationAt, Counts, Another;
    }
  }

  lemma ObservedIff(gated: bool, ticks: seq<Tick>, i: nat, ports: Ports, accepts: nat -> bool)
    requires i < |ticks|
    ensures var o := ObservationAt(gated, ticks, i, ports);
            o.Status? && accepts(o.status)
            <==> SeenRunning(ticks[i]) && !(gated && Another(ticks, i)) && Counts(gated, ticks, i, ports, accepts)
  {
    OtherIff(ticks, i);
    RecordedIff(ticks, i + 1);
    forall k | 0 <= k <= i ensures ProvesAt(ticks, k, ports) <==> Proves(ticks, k, ports) {
      OtherIff(ticks, k);
      RecordedIff(ticks, k + 1);
      hide Another, FoundOther, PathProven, Recorded, SomeIdentified;
    }
    hide Another, FoundOther, PathProven, Recorded, SomeIdentified, ProvesAt, Proves;
    assert ProvenBy(ticks, i + 1, ports) <==> exists k :: 0 <= k <= i && Proves(ticks, k, ports);
  }

  /** The check ends with the container's exit exactly when Docker answers and the container does not run. */
  lemma ExitIff(gated: bool, ticks: seq<Tick>, n: nat, ports: Ports)
    requires n <= |ticks|
    ensures ExitsAt(gated, ticks, n, ports) <==> n > 0 && !ticks[n - 1].inspect.Failed? && !SeenRunning(ticks[n - 1])
  {
  }

  /** So many successes at the end, and no fewer. */
  lemma {:induction false} TrailingIff(good: seq<bool>, r: nat)
    ensures Trailing(good) >= r <==> r <= |good| && forall i :: |good| - r <= i < |good| ==> good[i]
  {
    if good != [] {
      var init := good[..|good| - 1];
      if r > 0 {
        TrailingIff(init, r - 1);
        assert forall i :: 0 <= i < |init| ==> init[i] == good[i];
      }
    }
  }

  /**
    The last `required` of the first `k` attempts all got an accepted answer with the marker from the running
    container, no other container was found, and nothing stopped the check before.
   */
  ghost predicate EndsMarked(gated: bool, ticks: seq<Tick>, k: nat, ports: Ports, accepts: nat -> bool, required: nat) {
    && 0 < required <= k <= |ticks|
    && (forall i :: k - required <= i < k ==>
          SeenRunning(ticks[i]) && ticks[i].response.Matched? && accepts(ticks[i].response.status))
    && (gated ==> forall i :: 0 <= i < k ==> !Another(ticks, i))
    && forall m :: 0 <= m < k ==> GoesOn(gated, ticks, m, ports, accepts, required)
  }

  lemma MarkedStops(gated: bool, ticks: seq<Tick>, k: nat, ports: Ports, accepts: nat -> bool, required: nat, n: nat)
    requires EndsMarked(gated, ticks, k, ports, accepts, required) && n <= |ticks|
    requires forall m :: 0 <= m < n ==> GoesOn(gated, ticks, m, ports, accepts, required)
    requires n < |ticks| ==> !GoesOn(gated, ticks, n, ports, accepts, required)
    ensures n == k && !ExitsAt(gated, ticks, k, ports) && required > 0
    ensures RunAt(gated, ticks, k, ports, accepts) == required && !(gated && FoundOtherBy(ticks, k))
  {
    var good := GoodOf(gated, ticks, k, ports, accepts);
    assert GoesOn(gated, ticks, k - 1, ports, accepts, required);
    hide Another, FoundOther, Trailing, GoodOf, ObservationAt;
    forall i | k - required <= i < k ensures good[i] {
      SuccessIff(gated, ticks, k, ports, accepts, i);
    }
    TrailingIff(good, required);
    RunNext(gated, ticks, k - 1, ports, accepts);
    assert RunAt(gated, ticks, k, ports, accepts) == required;
    ExitIff(gated, ticks, k, ports);
    assert !GoesOn(gated, ticks, k, ports, accepts, required);
    forall i | 0 <= i < k && gated ensures !FoundOther(ticks, i) {
      OtherIff(ticks, i);
    }
  }

  // ---------------------------------------------------------------- the mapping and the route

  /** Docker publishes, over TCP, exactly the leased port and on addresses of this host only. */
  lemma MappingIff(c: Info, ports: Ports)
    ensures MappingOk(c, ports) <==>
              && (set p <- c.published | p.tcp :: (p.containerPort, p.hostPort))
                 == {(ports.containerPort, ports.hostPort)}
              && (set p <- c.published | p.tcp :: p.hostIp) <= {"", "0.0.0.0", "::", "127.0.0.1"}
  {
    var pairs := set p <- c.published | p.tcp :: (p.containerPort, p.hostPort);
    var ips := set p <- c.published | p.tcp :: p.hostIp;
    if MappingOk(c, ports) {
      var i :| 0 <= i < |c.published| && c.published[i].tcp;
      assert c.published[i] in c.published;
      assert (c.published[i].containerPort, c.published[i].hostPort) in pairs;
    }
    if pairs == {(ports.containerPort, ports.hostPort)} && ips <= {"", "0.0.0.0", "::", "127.0.0.1"} {
      assert (ports.containerPort, ports.hostPort) in pairs;
      var p :| p in c.published && p.tcp;
      var k :| 0 <= k < |c.published| && c.published[k] == p;
      forall i | 0 <= i < |c.published| && c.published[i].tcp
        ensures (c.published[i].containerPort, c.published[i].hostPort) in pairs && c.published[i].hostIp in ips
      {
        assert c.published[i] in c.published;
      }
    }
  }

  /**
    The path is proven by a running container all of whose published TCP addresses are the leased port, either all on
    any address or all on the loopback one, so that the answer came one known way; and by the proof itself.
   */
  lemma PathIff(f: PathFact, ports: Ports)
    ensures PathProven(f, ports) <==>
              && f.inspect.Found? && f.inspect.info.running && f.proves
              && var c := f.inspect.info;
                 && (set p <- c.published | p.tcp :: (p.containerPort, p.hostPort))
                    == {(ports.containerPort, ports.hostPort)}
                 && var ips := set p <- c.published | p.tcp :: p.hostIp;
                    ips <= {"", "0.0.0.0", "::"} || ips == {"127.0.0.1"}
  {
    if f.inspect.Found? {
      var c := f.inspect.info;
      var ips := set p <- c.published | p.tcp :: p.hostIp;
      MappingIff(c, ports);
      forall i | 0 <= i < |c.published| && c.published[i].tcp ensures c.published[i].hostIp in ips {
        assert c.published[i] in c.published;
      }
      if MappingOk(c, ports) && OneRoute(c, ports) {
        var i :| 0 <= i < |c.published| && c.published[i].tcp;
        assert c.published[i].hostIp in ips;
        OneKind(c, ports, i);
      }
      if MappingOk(c, ports) && (ips <= {"", "0.0.0.0", "::"} || ips == {"127.0.0.1"}) {
        assert OneRoute(c, ports);
      }
    }
  }

  /** With one route, all addresses are of the kind of any one of them. */
  lemma OneKind(c: Info, ports: Ports, i: nat)
    requires MappingOk(c, ports) && OneRoute(c, ports) && i < |c.published| && c.published[i].tcp
    ensures var ips := set p <- c.published | p.tcp :: p.hostIp;
            if AnyAddress(c.published[i].hostIp) then ips <= {"", "0.0.0.0", "::"} else ips == {"127.0.0.1"}
  {
    var ips := set p <- c.published | p.tcp :: p.hostIp;
    forall ip | ip in ips
      ensures AnyAddress(ip) == AnyAddress(c.published[i].hostIp) && (AnyAddress(ip) || ip == "127.0.0.1")
    {
      var p :| p in c.published && p.tcp && p.hostIp == ip;
      var j :| 0 <= j < |c.published| && c.published[j] == p;
    }
    assert c.published[i] in c.published && c.published[i].hostIp in ips;
  }

  // ---------------------------------------------------------------- the check

  /** What is looked at before and after the attempts. */
  datatype Around = Around(before: Inspect, after: Inspect, again: PathFact, created: Option<string>, listenerOk: bool)

  datatype Outcome = ByPath | ByMarker | Plain | Changed | Untrusted | DidNotPass | BadMapping | CannotInspect

  predicate Passed(o: Outcome) {
    o == ByPath || o == ByMarker || o == Plain
  }

  /** Before the attempts: Docker answers, and a container that runs publishes exactly the leased port. */
  predicate BeforeOk(around: Around, ports: Ports) {
    match around.before
    case Failed => false
    case Gone => true
    case Found(c) => c.running ==> MappingOk(c, ports)
  }

  /** The recorded container, from the image that was created for it, and the path proven again. */
  ghost predicate StillTheOne(ticks: seq<Tick>, n: nat, around: Around, ports: Ports)
    requires n <= |ticks|
  {
    && around.after.Found? && Recorded(ticks, n).Some?
    && !Differs(Recorded(ticks, n).value, around.after.info)
    && around.created == Some(Recorded(ticks, n).value.imageId)
    && PathProven(around.again, ports)
  }

  /** What must hold after the attempts: more when an unmarked answer was accepted among them. */
  ghost predicate Trusted(gated: bool, ticks: seq<Tick>, n: nat, around: Around, ports: Ports)
    requires n <= |ticks|
  {
    && around.after.Found? && around.after.info.running && MappingOk(around.after.info, ports)
    && (gated && ProvenBy(ticks, n, ports) ==> StillTheOne(ticks, n, around, ports))
    && around.listenerOk
  }

  /** A pass, exactly: enough successes in a row at the end, one container throughout, and the path looked at twice. */
  method Health(perContainer: bool, proofConfigured: bool, ports: Ports, required: nat, accepts: nat -> bool,
                ticks: seq<Tick>, around: Around)
    returns (o: Outcome, n: nat)
    requires required <= MAX_U8
    ensures n <= |ticks|
    ensures var gated := perContainer && proofConfigured;
            && (BeforeOk(around, ports) ==>
                  && (forall m :: 0 <= m < n ==> GoesOn(gated, ticks, m, ports, accepts, required))
                  && (n < |ticks| ==> !GoesOn(gated, ticks, n, ports, accepts, required)))
            && (Passed(o) <==>
                  && BeforeOk(around, ports)
                  && !ExitsAt(gated, ticks, n, ports) && required > 0
                  && RunAt(gated, ticks, n, ports, accepts) == required
                  && !(gated && FoundOtherBy(ticks, n))
                  && Trusted(gated, ticks, n, around, ports))
            && (o == ByPath <==> Passed(o) && gated && ProvenBy(ticks, n, ports))
            && (o == Plain <==> Passed(o) && !perContainer)
            && (o == Changed <==> BeforeOk(around, ports) && gated && FoundOtherBy(ticks, n))
            && (o == BadMapping <==> around.before.Found? && !BeforeOk(around, ports))
            && (o == DidNotPass <==>
                  && BeforeOk(around, ports) && !(gated && FoundOtherBy(ticks, n))
                  && !(!ExitsAt(gated, ticks, n, ports) && required > 0
                       && RunAt(gated, ticks, n, ports, accepts) == required))
            && (forall k :: EndsMarked(gated, ticks, k, ports, accepts, required) && BeforeOk(around, ports)
                            && Trusted(gated, ticks, k, around, ports) ==>
                  && n == k && Passed(o)
                  && (perContainer && !(gated && ProvenBy(ticks, k, ports)) ==> o == ByMarker))
  {
    n := 0;
    if around.before.Failed? {
      return CannotInspect, 0;
    }
    if around.before.Found? && around.before.info.running && !MappingOk(around.before.info, ports) {
      return BadMapping, 0;
    }
    var probe := new Probe(perContainer && proofConfigured, ports);
    var ev;
    ev, n := RunHealth(probe, ticks, required, accepts);
    hide FoundOther, ProvenBy, FoundOtherBy, GoesOn, ExitsAt, RunAt, Validates, Trusted, EndsMarked, MappingOk;
    o := Judge(perContainer, probe, ticks, n, around, ev.verdict == Healthy && Validates(ev));
    forall k | EndsMarked(probe.gated, ticks, k, ports, accepts, required)
      ensures n == k && !ExitsAt(probe.gated, ticks, k, ports) && required > 0
              && RunAt(probe.gated, ticks, k, ports, accepts) == required && !(probe.gated && FoundOtherBy(ticks, k))
    {
      MarkedStops(probe.gated, ticks, k, ports, accepts, required, n);
    }
  }

  /** What comes after the attempts. */
  method Judge(perContainer: bool, probe: Probe, ghost ticks: seq<Tick>, ghost n: nat, around: Around, healthy: bool)
    returns (o: Outcome)
    requires n <= |ticks| && probe.Tells(ticks, n) && (probe.gated ==> perContainer)
    ensures Passed(o) <==> healthy && !probe.changed && Trusted(probe.gated, ticks, n, around, probe.ports)
    ensures o == ByPath <==> Passed(o) && probe.gated && ProvenBy(ticks, n, probe.ports)
    ensures o == Plain <==> Passed(o) && !perContainer
    ensures o == Changed <==> probe.changed
    ensures o == DidNotPass <==> !probe.changed && !healthy
    ensures o == CannotInspect <==> !probe.changed && healthy && around.after.Failed?
    ensures o != BadMapping
  {
    hide MappingOk, PathProven, Recorded, FoundOtherBy, ProvenBy;
    if probe.changed {
      return Changed;
    }
    if !healthy {
      return DidNotPass;
    }
    if around.after.Failed? {
      return CannotInspect;
    }
    if !(around.after.Found? && around.after.info.running) || !MappingOk(around.after.info, probe.ports) {
      return Untrusted;
    }
    if probe.usedUnmarked {
      if probe.baseline.None? || Differs(probe.baseline.value, around.after.info)
         || around.created != Some(probe.baseline.value.imageId) || !PathProven(around.again, probe.ports) {
        return Untrusted;
      }
    }
    if !around.listenerOk {
      return Untrusted;
    }
    o := if !perContainer then Plain else if probe.usedUnmarked then ByPath else ByMarker;
  }

  lemma {:induction false} TrailingAll(good: seq<bool>)
    ensures Trailing(good) <= |good| && forall i :: |good| - Trailing(good) <= i < |good| ==> good[i]
  {
    if good != [] && good[|good| - 1] {
      TrailingAll(good[..|good| - 1]);
    }
  }

  lemma {:induction false} GoodIsRunning(gated: bool, ticks: seq<Tick>, n: nat, ports: Ports, accepts: nat -> bool,
                                         i: nat)
    requires i < n <= |ticks| && GoodOf(gated, ticks, n, ports, accepts)[i]
    ensures SeenRunning(ticks[i]) && !(gated && FoundOther(ticks, i))
    decreases n
  {
    hide Asks, ProvenBy, FoundOther;
    if i < n - 1 {
      GoodIsRunning(gated, ticks, n - 1, ports, accepts, i);
    }
  }

  /** The successes a pass rests on are the last ones, and each found the container running, and the same one. */
  lemma PassRestsOn(gated: bool, ticks: seq<Tick>, n: nat, ports: Ports, accepts: nat -> bool, i: nat)
    requires n <= |ticks| && n - RunAt(gated, ticks, n, ports, accepts) <= i < n
    ensures SeenRunning(ticks[i]) && !(gated && FoundOther(ticks, i))
  {
    TrailingAll(GoodOf(gated, ticks, n, ports, accepts));
    GoodIsRunning(gated, ticks, n, ports, accepts, i);
  }

  /** The first unmarked answer that is accepted is one at which the path was proven. */
  lemma FirstAcceptedIsProven(ticks: seq<Tick>, j: nat, ports: Ports)
    requires j < |ticks| && Asks(ticks, j) && ObservationAt(true, ticks, j, ports).Status?
    requires forall i :: 0 <= i < j && Asks(ticks, i) ==> !ObservationAt(true, ticks, i, ports).Status?
    ensures ProvesAt(ticks, j, ports)
  {
    var k :| 0 <= k < j + 1 && ProvesAt(ticks, k, ports);
    assert Asks(ticks, k) && ProvenBy(ticks, k + 1, ports);
    assert ObservationAt(true, ticks, k, ports).Status?;
  }

  // ---------------------------------------------------------------- one container, from the baseline on

  lemma {:induction false} RecordedStays(ticks: seq<Tick>, i: nat, j: nat)
    requires i <= j <= |ticks| && Recorded(ticks, i).Some?
    ensures Recorded(ticks, j) == Recorded(ticks, i)
    decreases j
  {
    if i < j {
      RecordedStays(ticks, i, j - 1);
    }
  }

  /**
    In a check whose path may be proven and that found no other container: from the attempt at which an identity was
    recorded, every inspection that found a running container found the same id, image, start and restarts.
   */
  lemma OneContainerThroughout(ticks: seq<Tick>, n: nat, i: nat, j: nat)
    requires i < j < n <= |ticks| && SeenRunning(ticks[i]) && SeenRunning(ticks[j])
    requires Recorded(ticks, i + 1).Some? && !FoundOtherBy(ticks, n)
    ensures Recorded(ticks, n) == Recorded(ticks, i + 1)
    ensures BaselineOf(ticks[i].inspect.info) == BaselineOf(ticks[j].inspect.info) == Recorded(ticks, n)
  {
    RecordedStays(ticks, i + 1, j);
    RecordedStays(ticks, i + 1, n);
    assert !FoundOther(ticks, i) && !FoundOther(ticks, j);
    RecordedIsKnown(ticks, i + 1);
  }

  /** What is recorded has every fact known. */
  lemma {:induction false} RecordedIsKnown(ticks: seq<Tick>, i: nat)
    requires i <= |ticks| && Recorded(ticks, i).Some?
    ensures var b := Recorded(ticks, i).value; b.id != "" && b.imageId != "" && b.startedAt != ""
  {
    if Recorded(ticks, i - 1).Some? {
      RecordedIsKnown(ticks, i - 1);
    }
  }
}
