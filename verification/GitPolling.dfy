/**
  One poll pass in detail: the loop of `poll_repo`, exactly when it is refused, and the delivery ids that decide
  whether a commit was queued before.
 */
module GitPolling {
  import opened Bytes
  import opened Characters
  import opened GitRegistry
  import opened GitRuns

  // ---------------------------------------------------------------- the loop

  datatype One = One(records: seq<Record>, events: seq<Event>, refused: bool)

  /** What the pass does for one head. */
  function OneHead(s: State, events: seq<Event>, r: Repo, h: Head, late: bool, t0: nat, t1: nat): One {
    if Skipped(s, r, h) then One([], [], false)
    else if !Moved(s, r, h) then One([SeenNow(r, h, t1)], [], false)
    else
      match Queue(events, MovedEvent(s, r, h, late, t0))
      case Held(e) => One([Queued(e)] + [SeenNow(r, h, t1)], [e], false)
      case Duplicate => One([SeenNow(r, h, t1)], [], false)
      case _ => One([], [], true)
  }

  lemma RefusedIsEmpty(s: State, events: seq<Event>, r: Repo, h: Head, late: bool, t0: nat, t1: nat)
    ensures OneHead(s, events, r, h, late, t0, t1).refused ==> OneHead(s, events, r, h, late, t0, t1).records == []
  {
  }

  /** A beginning of one head's records, behind what was done, is a beginning of the plan. */
  lemma Beginning(done: seq<Record>, some: seq<Record>, all: seq<Record>, rest: Pass)
    requires some < all
    ensures done + some < Before(done + all, rest).records
  {
    var records := Before(done + all, rest).records;
    assert done + all <= records;
  }

  lemma QueueGivesBack(events: seq<Event>, e: Event)
    ensures Queue(events, e).Held? ==> Queue(events, e) == Held(e)
  {
  }

  /** What is left of the pass at head `i`. */
  ghost function From(s: State, events: seq<Event>, r: Repo, heads: seq<Head>, late: bool, times: seq<nat>,
                      i: nat): Pass
    requires i <= |heads| && |times| >= 2 * |heads|
  {
    PollPlan(s, events, r, heads[i..], late, times[2 * i..])
  }

  lemma BeforeMore(done: seq<Record>, more: seq<Record>, p: Pass)
    ensures Before(done, Before(more, p)) == Before(done + more, p)
    ensures Before(done, Pass(more, true)) == Pass(done + more, true)
  {
  }

  lemma FromStep(s: State, events: seq<Event>, r: Repo, heads: seq<Head>, late: bool, times: seq<nat>, i: nat)
    requires i < |heads| && |times| >= 2 * |heads|
    ensures var one := OneHead(s, events, r, heads[i], late, times[2 * i], times[2 * i + 1]);
            (From(s, events, r, heads, late, times, i)
             == if one.refused then Pass(one.records, true)
                else Before(one.records, From(s, events + one.events, r, heads, late, times, i + 1)))
  {
    var rest, later := heads[i..], times[2 * i..];
    assert rest[1..] == heads[i + 1..] && later[2..] == times[2 * (i + 1)..] && rest[0] == heads[i];
    assert later[0] == times[2 * i] && later[1] == times[2 * i + 1];
    assert events + [] == events;
    hide Baseline, FindEvent, DeliveryOk, MovedEvent, SeenNow, WantsBranch;
  }

  datatype Queueing = Answered(ingress: Ingress) | NotWritten

  /** `Stopped`: a write failed, and the pass ended there. */
  datatype Ending = Finished(queued: nat) | Refused | Stopped

  /**
    The open journal of a pass, and the events as the pass knows them. `writes` says which of the coming writes
    succeed.
   */
  /** The next `n` writes succeed; beyond what is known of them, they do. */
  predicate Works(writes: seq<bool>, n: nat) {
    forall i :: 0 <= i < n && i < |writes| ==> writes[i]
  }

  function Behind(writes: seq<bool>, n: nat): seq<bool> {
    if n <= |writes| then writes[n..] else []
  }

  lemma WorksOn(writes: seq<bool>, a: nat, b: nat)
    ensures Works(writes, a + b) <==> Works(writes, a) && Works(Behind(writes, a), b)
    ensures Behind(Behind(writes, a), b) == Behind(writes, a + b)
  {
    if Works(writes, a) && Works(Behind(writes, a), b) {
      forall i | 0 <= i < a + b && i < |writes| ensures writes[i] {
        assert i >= a ==> writes[i] == Behind(writes, a)[i - a];
      }
    }
  }

  /** What was written is the beginning of these records, up to the first whose write failed. */
  predicate StopsAt(writes: seq<bool>, records: seq<Record>, written: seq<Record>) {
    written < records && Works(writes, |written|) && !Works(writes, |written| + 1)
  }

  lemma StopsThere(log: seq<Record>, writes: seq<bool>, records: seq<Record>, done: seq<Record>, more: seq<Record>)
    requires Works(writes, |done|) && Works(Behind(writes, |done|), |more|)
    requires !Works(Behind(writes, |done|), |more| + 1) && done + more < records
    ensures log <= log + (done + more) && StopsAt(writes, records, (log + (done + more))[|log|..])
  {
    WorksOn(writes, |done|, |more|);
    WorksOn(writes, |done|, |more| + 1);
    assert (log + (done + more))[|log|..] == done + more;
    hide Works, Behind;
  }

  class Writer {
    var log: seq<Record>
    var events: seq<Event>
    var writes: seq<bool>

    constructor (log: seq<Record>, events: seq<Event>, writes: seq<bool>)
      ensures this.log == log && this.events == events && this.writes == writes
    {
      this.log, this.events, this.writes := log, events, writes;
    }

    /** One record, or nothing when its write fails. */
    method Write(r: Record) returns (ok: bool)
      modifies this`log, this`writes
      ensures log == old(log) + (if ok then [r] else [])
      ensures (ok <==> Works(old(writes), 1)) && writes == Behind(old(writes), 1)
    {
      ok := writes == [] || writes[0];
      writes := if writes == [] then [] else writes[1..];
      if ok {
        log := log + [r];
      }
    }

    /** `queue_event`: nothing is written unless the event is new, and nothing is known of it unless it was written. */
    method QueueEvent(e: Event) returns (r: Queueing)
      modifies this
      ensures r.Answered? ==>
                && r.ingress == Queue(old(events), e)
                && log == old(log) + (if r.ingress.Held? then [Queued(e)] else [])
                && events == old(events) + (if r.ingress.Held? then [e] else [])
                && var n := if r.ingress.Held? then 1 else 0;
                   Works(old(writes), n) && writes == Behind(old(writes), n)
      ensures r.NotWritten? ==> !Works(old(writes), 1)
      ensures r.NotWritten? ==> Queue(old(events), e).Held? && log == old(log) && events == old(events)
    {
      var i := Queue(events, e);
      if i.Held? {
        var ok := Write(Queued(e));
        if !ok {
          return NotWritten;
        }
        events := events + [e];
      }
      r := Answered(i);
    }

    /** One head: nothing, its observation, or its event and then its observation; a failed write ends it early. */
    method PollHead(s: State, repo: Repo, h: Head, late: bool, t0: nat, t1: nat) returns (e: Ending)
      modifies this
      ensures var one := OneHead(s, old(events), repo, h, late, t0, t1);
              match e
              case Finished(n) =>
                && !one.refused && log == old(log) + one.records && events == old(events) + one.events
                && n == |one.events|
                && Works(old(writes), |one.records|) && writes == Behind(old(writes), |one.records|)
              case Refused =>
                one.refused && log == old(log) && events == old(events) && writes == old(writes)
              case Stopped => old(log) <= log && StopsAt(old(writes), one.records, log[|old(log)|..])
    {
      hide Skipped, Moved, MovedEvent, SeenNow, Queue;
      QueueGivesBack(events, MovedEvent(s, repo, h, late, t0));
      ghost var one := OneHead(s, events, repo, h, late, t0, t1);
      ghost var before, m := log, 0;
      if Skipped(s, repo, h) {
        return Finished(0);
      }
      var queued := 0;
      if Moved(s, repo, h) {
        var r := QueueEvent(MovedEvent(s, repo, h, late, t0));
        if r.NotWritten? {
          assert log[|before|..] == one.records[..0] && before <= log;
          return Stopped;
        }
        if r.ingress.Conflict? || r.ingress.Invalid? {
          return Refused;
        }
        if r.ingress.Held? {
          queued, m := 1, 1;
        }
      }
      assert log == before + one.records[..m];
      WorksOn(old(writes), m, 1);
      var ok := Write(SeenNow(repo, h, t1));
      assert !ok ==> log[|before|..] == one.records[..m];
      e := if ok then Finished(queued) else Stopped;
    }

    /** Head `i` of a pass that has `done` behind it: what it appends goes on from there in the plan. */
    method PollNext(s: State, repo: Repo, heads: seq<Head>, late: bool, times: seq<nat>, i: nat,
                    ghost done: seq<Record>, ghost plan: Pass)
      returns (e: Ending, ghost more: seq<Record>)
      requires i < |heads| && |times| >= 2 * |heads|
      requires plan == Before(done, From(s, events, repo, heads, late, times, i))
      modifies this
      ensures log == old(log) + more
      ensures match e
              case Finished(n) =>
                plan == Before(done + more, From(s, events, repo, heads, late, times, i + 1))
                && |events| == |old(events)| + n
                && Works(old(writes), |more|) && writes == Behind(old(writes), |more|)
              case Refused => more == [] && plan == Pass(done, true) && writes == old(writes)
              case Stopped =>
                && done + more < plan.records
                && Works(old(writes), |more|) && !Works(old(writes), |more| + 1)
    {
      hide OneHead, From, Before;
      FromStep(s, events, repo, heads, late, times, i);
      ghost var one := OneHead(s, events, repo, heads[i], late, times[2 * i], times[2 * i + 1]);
      ghost var rest := From(s, events + one.events, repo, heads, late, times, i + 1);
      BeforeMore(done, one.records, rest);
      RefusedIsEmpty(s, events, repo, heads[i], late, times[2 * i], times[2 * i + 1]);
      e := PollHead(s, repo, heads[i], late, times[2 * i], times[2 * i + 1]);
      more := if e.Finished? then one.records else [];
      if e.Stopped? {
        more := log[|old(log)|..];
        Beginning(done, more, one.records, rest);
      }
    }

    /** The pass: all of its plan, or what comes before the first record whose write fails. */
    method PollRepo(s: State, repo: Repo, heads: seq<Head>, late: bool, times: seq<nat>) returns (e: Ending)
      requires |times| >= 2 * |heads|
      modifies this
      ensures var p := PollPlan(s, old(events), repo, heads, late, times);
              match e
              case Finished(n) =>
                && !p.refused && log == old(log) + p.records && |events| == |old(events)| + n
                && Works(old(writes), |p.records|)
              case Refused => p.refused && log == old(log) + p.records && Works(old(writes), |p.records|)
              case Stopped => old(log) <= log && StopsAt(old(writes), p.records, log[|old(log)|..])
    {
      ghost var plan, done := From(s, events, repo, heads, late, times, 0), [];
      assert heads[0..] == heads && times[0..] == times && Before([], plan) == plan;
      assert plan == PollPlan(s, events, repo, heads, late, times);
      var queued: nat := 0;
      for i := 0 to |heads|
        invariant log == old(log) + done
        invariant plan == Before(done, From(s, events, repo, heads, late, times, i))
        invariant |events| == |old(events)| + queued
        invariant Works(old(writes), |done|) && writes == Behind(old(writes), |done|)
      {
        hide From, PollPlan, Before, Works, Behind, StopsAt;
        ghost var more;
        e, more := PollNext(s, repo, heads, late, times, i, done, plan);
        assert old(log) + done + more == old(log) + (done + more);
        if e.Stopped? {
          StopsThere(old(log), old(writes), plan.records, done, more);
          return;
        }
        WorksOn(old(writes), |done|, |more|);
        if e.Refused? {
          return;
        }
        queued, done := queued + e.queued, done + more;
      }
      e := Finished(queued);
    }
  }

  // ---------------------------------------------------------------- delivery ids

  predicate NameOk(name: string) {
    1 <= |name| <= 64 && forall i | 0 <= i < |name| :: TokenChar(name[i])
  }

  predicate CommitOk(c: string) {
    (|c| == 40 || |c| == 64) && forall i | 0 <= i < |c| :: '0' <= c[i] <= '9' || 'a' <= c[i] <= 'f'
  }

  function Tail(incarnation: nat, commit: string): string {
    (if incarnation == 0 then "" else "r" + Digits(incarnation) + ":") + commit
  }

  lemma DeliveryParts(name: string, incarnation: nat, commit: string)
    ensures PollDelivery(name, incarnation, commit) == "poll:" + (name + [':'] + Tail(incarnation, commit))
  {
    if incarnation == 0 {
      assert "" + commit == commit;
    }
  }

  /** The first colon ends the part before it. */
  lemma FirstColon(a: string, x: string, b: string, y: string)
    requires ':' !in a && ':' !in b
    requires a + [':'] + x == b + [':'] + y
    ensures a == b && x == y
  {
    var s := a + [':'] + x;
    assert s[|a|] == ':' && s[|b|] == ':';
    assert forall k :: 0 <= k < |a| ==> s[k] == a[k] != ':';
    assert forall k :: 0 <= k < |b| ==> s[k] == b[k] != ':';
    assert s[..|a|] == a && s[..|b|] == b && s[|a| + 1..] == x && s[|b| + 1..] == y;
  }

  lemma {:induction false} DigitsAreDigits(n: nat)
    ensures Digits(n) != "" && forall i :: 0 <= i < |Digits(n)| ==> '0' <= Digits(n)[i] <= '9'
  {
    if n >= 10 {
      DigitsAreDigits(n / 10);
    }
  }

  lemma {:induction false} DigitsRead(n: nat, m: nat)
    requires Digits(n) == Digits(m)
    ensures n == m
  {
    var d, e := Digits(n), Digits(m);
    DigitsAlone(n);
    DigitsAlone(m);
    assert d[|d| - 1] == DigitChar(n % 10) && e[|e| - 1] == DigitChar(m % 10);
    if n >= 10 {
      assert d[..|d| - 1] == Digits(n / 10) && e[..|e| - 1] == Digits(m / 10);
      DigitsRead(n / 10, m / 10);
    }
  }

  lemma DigitsAlone(n: nat)
    ensures |Digits(n)| == 1 <==> n < 10
  {
    if n >= 10 {
      DigitsAreDigits(n / 10);
    }
  }

  lemma TailReads(i: nat, c: string, j: nat, d: string)
    requires CommitOk(c) && CommitOk(d) && Tail(i, c) == Tail(j, d)
    ensures i == j && c == d
  {
    var a, b := Tail(i, c), Tail(j, d);
    assert a[0] == (if i == 0 then c[0] else 'r') && b[0] == (if j == 0 then d[0] else 'r');
    if i == 0 && j == 0 {
      assert a == c && b == d;
    } else if i != 0 && j != 0 {
      DigitsAreDigits(i);
      DigitsAreDigits(j);
      assert a == ("r" + Digits(i)) + [':'] + c && b == ("r" + Digits(j)) + [':'] + d;
      FirstColon("r" + Digits(i), c, "r" + Digits(j), d);
      assert ("r" + Digits(i))[1..] == Digits(i) && ("r" + Digits(j))[1..] == Digits(j);
      DigitsRead(i, j);
    }
  }

  /** An id says which repository, which incarnation of its registration and which commit it is for. */
  lemma DeliveryReads(a: string, i: nat, c: string, b: string, j: nat, d: string)
    requires NameOk(a) && NameOk(b) && CommitOk(c) && CommitOk(d)
    requires PollDelivery(a, i, c) == PollDelivery(b, j, d)
    ensures a == b && i == j && c == d
  {
    DeliveryParts(a, i, c);
    DeliveryParts(b, j, d);
    hide Tail;
    var x, y := a + [':'] + Tail(i, c), b + [':'] + Tail(j, d);
    assert ("poll:" + x)[5..] == x && ("poll:" + y)[5..] == y;
    FirstColon(a, Tail(i, c), b, Tail(j, d));
    TailReads(i, c, j, d);
  }

  /** The ids of one repository and one incarnation differ as their commits do. */
  lemma CommitReads(name: string, i: nat, c: string, d: string)
    requires PollDelivery(name, i, c) == PollDelivery(name, i, d)
    ensures c == d
  {
    var head := "poll:" + name + ":" + (if i == 0 then "" else "r" + Digits(i) + ":");
    assert PollDelivery(name, i, c) == head + c && PollDelivery(name, i, d) == head + d;
    assert (head + c)[|head|..] == c && (head + d)[|head|..] == d;
  }

  /**
    The event queue takes an id of at most 128 characters. A name may have 64 and a SHA-256 commit has 64, so the id
    of a valid commit of a valid repository is refused exactly when the three parts together are too long.
   */
  lemma DeliveryOkIff(name: string, incarnation: nat, commit: string)
    requires NameOk(name) && CommitOk(commit)
    ensures DeliveryOk(PollDelivery(name, incarnation, commit))
       <==> |name| + |commit| + (if incarnation == 0 then 0 else |Digits(incarnation)| + 2) <= 122
  {
    DeliveryParts(name, incarnation, commit);
    var tail := Tail(incarnation, commit);
    assert forall i :: 0 <= i < |tail| ==> TokenChar(tail[i]) || tail[i] == ':' by {
      DigitsAreDigits(incarnation);
    }
  }

  /** So every name works with SHA-1 commits, and a name of 59 characters or more never works with SHA-256 ones. */
  lemma LongNamesLosePolling(name: string, commit: string)
    requires NameOk(name) && CommitOk(commit)
    ensures DeliveryOk(PollDelivery(name, 0, commit)) <==> |commit| == 40 || |name| <= 58
  {
    DeliveryOkIff(name, 0, commit);
  }

  // ---------------------------------------------------------------- when a pass is refused

  /** The id is refused, or it is recorded with another source or another revision. */
  predicate Clash(events: seq<Event>, s: State, r: Repo, h: Head, late: bool) {
    var e := MovedEvent(s, r, h, late, 0);
    || !DeliveryOk(e.delivery)
    || (FindEvent(events, e.app, e.delivery).Some?
        && (FindEvent(events, e.app, e.delivery).value.source != e.source
            || FindEvent(events, e.app, e.delivery).value.revision != h.commit))
  }

  ghost predicate SomeClash(s: State, events: seq<Event>, r: Repo, heads: seq<Head>, late: bool) {
    exists k :: 0 <= k < |heads| && Moved(s, r, heads[k]) && Clash(events, s, r, heads[k], late)
  }

  lemma SomeClashFirst(s: State, events: seq<Event>, r: Repo, heads: seq<Head>, late: bool)
    requires heads != []
    ensures SomeClash(s, events, r, heads, late)
       <==> (Moved(s, r, heads[0]) && Clash(events, s, r, heads[0], late)) || SomeClash(s, events, r, heads[1..], late)
  {
    hide Moved, Clash;
    if k :| 0 <= k < |heads| && Moved(s, r, heads[k]) && Clash(events, s, r, heads[k], late) {
      assert k > 0 ==> heads[1..][k - 1] == heads[k];
    }
    if k :| 0 <= k < |heads[1..]| && Moved(s, r, heads[1..][k]) && Clash(events, s, r, heads[1..][k], late) {
      assert heads[1..][k] == heads[k + 1];
    }
  }

  /** An event the pass itself queued clashes with none of its heads. */
  lemma OwnEventsAgree(s: State, events: seq<Event>, r: Repo, heads: seq<Head>, g: Head, late: bool, t: nat)
    requires Queue(events, MovedEvent(s, r, g, late, t)).Held?
    ensures SomeClash(s, events + [MovedEvent(s, r, g, late, t)], r, heads, late)
       <==> SomeClash(s, events, r, heads, late)
  {
    var e := MovedEvent(s, r, g, late, t);
    forall k | 0 <= k < |heads|
      ensures Clash(events + [e], s, r, heads[k], late) <==> Clash(events, s, r, heads[k], late)
    {
      var mine := MovedEvent(s, r, heads[k], late, 0);
      FindLast(events, e, mine.app, mine.delivery);
      if e.delivery == mine.delivery {
        CommitReads(r.name, Incarnation(s.retired, r.app), g.commit, heads[k].commit);
      }
      hide PollDelivery, FindEvent;
    }
    hide Clash;
  }

  /** A pass is refused exactly when one of the heads that moved clashes with what was queued before it began. */
  lemma {:induction false} PollRefusedIff(s: State, events: seq<Event>, r: Repo, heads: seq<Head>, late: bool,
                                          times: seq<nat>)
    requires |times| >= 2 * |heads|
    ensures PollPlan(s, events, r, heads, late, times).refused <==> SomeClash(s, events, r, heads, late)
    decreases |heads|
  {
    if heads != [] {
      var h := heads[0];
      var e := MovedEvent(s, r, h, late, times[0]);
      SomeClashFirst(s, events, r, heads, late);
      PollRefusedIff(s, events, r, heads[1..], late, times[2..]);
      PollRefusedIff(s, events + [e], r, heads[1..], late, times[2..]);
      ClashIsQueue(events, s, r, h, late, times[0]);
      if Queue(events, e).Held? {
        OwnEventsAgree(s, events, r, heads[1..], h, late, times[0]);
      }
      hide SomeClash, Clash, Moved, Skipped, MovedEvent;
    }
  }

  lemma ClashIsQueue(events: seq<Event>, s: State, r: Repo, h: Head, late: bool, t: nat)
    ensures var e := MovedEvent(s, r, h, late, t);
            && (Clash(events, s, r, h, late) <==> Queue(events, e).Conflict? || Queue(events, e).Invalid?)
            && (Queue(events, e).Held? ==> Queue(events, e) == Held(e))
  {
    hide PollDelivery, FindEvent, DeliveryOk;
  }

  /**
    Queuing a commit again under its old id is harmless only while the pass is of the same kind. A process that dies
    after queuing the event of a moved head and before its observation leaves the event behind; the next pass over
    that head is refused, and records nothing, exactly when one of the two passes was the first of its process and
    the other was not.
   */
  lemma RequeueIsIdempotentIff(s: State, r: Repo, h: Head, late: bool, nextLate: bool, t: nat, times: seq<nat>)
    requires Moved(s, r, h) && Queue(s.events, MovedEvent(s, r, h, late, t)).Held? && |times| == 2
    ensures var died := s.(events := s.events + [MovedEvent(s, r, h, late, t)]);
            (PollPlan(died, died.events, r, [h], nextLate, times)
             == if late == nextLate then Pass([SeenNow(r, h, times[1])], false) else Pass([], true))
  {
    var e := MovedEvent(s, r, h, late, t);
    var died := s.(events := s.events + [e]);
    FindLast(s.events, e, e.app, e.delivery);
    hide FindEvent, PollDelivery, DeliveryOk;
    assert Moved(died, r, h) && !Skipped(died, r, h);
    assert Queue(died.events, MovedEvent(died, r, h, nextLate, times[0]))
        == if late == nextLate then Duplicate else Conflict;
    assert PollPlan(died, died.events, r, [h][1..], nextLate, times[2..]) == Pass([], false);
  }
}
