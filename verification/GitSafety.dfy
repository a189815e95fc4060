/** What holds of the registration records of every journal the protocol of `GitRuns` can produce. */
module GitSafety {
  import opened Bytes
  import opened Destinations
  import opened GitRegistry
  import opened GitRuns

  // ---------------------------------------------------------------- the journal always replays

  /**
    In every interleaving, dying at any append included: the journal and each of its beginnings replay, and every record
    says what the operation that wrote it was asked to do, of the registration that is live at that point and is the
    very one the operation began with.
   */
  lemma JournalAlwaysReplays(strict: bool, steps: seq<Step>)
    ensures var w := After(strict, steps);
            && |w.log| == |w.ops|
            && Replays(w.log)
            && forall i :: 0 <= i < |w.log| ==>
                 Replays(w.log[..i]) && w.ops[i] in w.started && Says(Replay(w.log[..i]).value, w.log[i], w.ops[i])
  {
    var w := After(strict, steps);
    RunIsGood(strict, steps);
    WritersStarted(strict, steps);
    hide Replay, After, Says;
    forall i | 0 <= i < |w.log| ensures Replays(w.log[..i]) && Says(Replay(w.log[..i]).value, w.log[i], w.ops[i]) {
      assert StepOk(Apart(w.log[..i]), Replay(w.log[..i]).value, w.log[i], w.ops[i]);
    }
  }

  /** Only an operation that was started holds the lock or writes. */
  lemma {:induction false} WritersStarted(strict: bool, steps: seq<Step>)
    ensures var w := After(strict, steps);
            && (w.holder.Some? ==> w.holder.value in w.started)
            && forall op <- w.ops :: op in w.started
    decreases |steps|
  {
    if steps != [] {
      WritersStarted(strict, steps[..|steps| - 1]);
      hide Replay, Plan, Found, Increasing;
    }
  }

  /**
    What a deployment's source record says is what was checked out for it: the commit, the reference it was asked for,
    the address it was fetched from, and what set it off.
   */
  lemma SourceIsWhatWasCheckedOut(strict: bool, steps: seq<Step>, i: nat)
    requires i < |After(strict, steps).log| && After(strict, steps).log[i].Sourced?
    ensures exists op <- After(strict, steps).started ::
              var x := After(strict, steps).log[i].source;
              && op.Run? && x.commit == op.commit && Requests(op.sel, x)
              && x.trigger == op.trigger && x.delivery == op.delivery
              && x.repo == op.repo.name && x.url == op.repo.url
  {
    JournalAlwaysReplays(strict, steps);
    hide After, Replay;
    assert Says(Replay(After(strict, steps).log[..i]).value, After(strict, steps).log[i], After(strict, steps).ops[i]);
  }

  lemma RunIsGood(strict: bool, steps: seq<Step>)
    ensures Good(After(strict, steps).log, After(strict, steps).ops)
  {
    RunKeeps(strict, steps);
    hide After, StepOk, Replay;
    var w := After(strict, steps);
    GoodPrefix(Whole(w), WholeOps(w), |w.log|);
    assert Whole(w)[..|w.log|] == w.log && WholeOps(w)[..|w.log|] == w.ops;
  }

  /** The state before record `k` and the state after it. */
  lemma StepAt(log: seq<Record>, ops: seq<Op>, k: nat)
    requires Good(log, ops) && k < |log|
    ensures |ops| == |log|
    ensures Replays(log[..k]) && Replays(log[..k + 1])
    ensures Apply(Replay(log[..k]).value, log[k]) == Replay(log[..k + 1])
    ensures StepOk(Apart(log[..k]), Replay(log[..k]).value, log[k], ops[k])
  {
    hide StepOk, Apply, Replay, Apart;
    ReplayPrefix(log, k + 1);
    ReplayLast(log[..k + 1]);
    assert log[..k + 1][..k] == log[..k] && log[..k + 1][k] == log[k];
  }

  // ---------------------------------------------------------------- a saved credential keeps its destination

  ghost predicate Bound(s: State, name: string, url: string) {
    && CredentialId(name) in s.versions
    && Anchor(s, name).Some? && SamePlace(url, Anchor(s, name).value.0)
  }

  lemma RetiredLast(retired: seq<Removed>, x: Removed, name: string)
    ensures RetiredName(retired + [x], name) == if x.name == name then Some(x) else RetiredName(retired, name)
  {
    assert (retired + [x])[..|retired|] == retired;
  }

  lemma BoundStays(s: State, r: Record, op: Op, name: string, url: string)
    requires Bound(s, name, url) && Apply(s, r).Some? && StepOk(true, s, r, op)
    ensures Bound(Apply(s, r).value, name, url)
  {
    if r.Dropped? {
      RetiredLast(s.retired, r.removed, name);
    }
    hide Destination, CredentialId, RetiredName, RetiredOwner, FindEvent;
  }

  lemma BoundAtFirst(s: State, r: Record, op: Op, name: string)
    requires Apply(s, r).Some? && StepOk(true, s, r, op) && r.Saved? && r.id == CredentialId(name)
    ensures Live(s, name).Some? && Bound(Apply(s, r).value, name, Live(s, name).value.url)
  {
  }

  lemma {:induction false} BoundFrom(log: seq<Record>, ops: seq<Op>, i: nat, k: nat, name: string)
    requires Good(log, ops) && i < k <= |log| && Apart(log[..k - 1])
    requires log[i].Saved? && log[i].id == CredentialId(name)
    ensures Replays(log[..i]) && Live(Replay(log[..i]).value, name).Some?
    ensures Replays(log[..k]) && Bound(Replay(log[..k]).value, name, Live(Replay(log[..i]).value, name).value.url)
    decreases k
  {
    hide Replay, Apply, StepOk, Bound, Live, CredentialId, Good, Apart;
    StepAt(log, ops, k - 1);
    if k == i + 1 {
      BoundAtFirst(Replay(log[..i]).value, log[i], ops[i], name);
    } else {
      ApartPrefix(log, k - 2, k - 1);
      BoundFrom(log, ops, i, k - 1, name);
      BoundStays(Replay(log[..k - 1]).value, log[k - 1], ops[k - 1], name,
                 Live(Replay(log[..i]).value, name).value.url);
    }
  }

  /**
    Whatever the clock shows: from the moment a credential is saved under a name, every later registration of the
    name, through any edits, removals and new registrations, has the address of that moment or one that can be read
    and leads to the same transport, host and port, as long as no registration before it was recorded twice.
   */
  lemma CredentialKeepsItsPlace(strict: bool, steps: seq<Step>, i: nat, j: nat, name: string)
    requires i < j < |After(strict, steps).log|
    requires var a := After(strict, steps).log[i]; a.Saved? && a.id == CredentialId(name)
    requires var b := After(strict, steps).log[j]; b.Registered? && b.repo.name == name
    requires Apart(After(strict, steps).log[..j])
    ensures var log := After(strict, steps).log;
            && Replays(log[..i]) && Live(Replay(log[..i]).value, name).Some?
            && SamePlace(Live(Replay(log[..i]).value, name).value.url, log[j].repo.url)
  {
    var w := After(strict, steps);
    RunIsGood(strict, steps);
    hide After, Good, Apart, StepOk, Replay;
    BoundFrom(w.log, w.ops, i, j + 1, name);
    StepAt(w.log, w.ops, j);
  }

  /** A clock that moves on at every reading tells all registrations apart. */
  lemma MovingClockTellsApart(steps: seq<Step>, n: nat)
    requires n <= |After(true, steps).log|
    ensures Apart(After(true, steps).log[..n])
  {
    RunKeeps(true, steps);
    hide After, Good, FoundAt;
    var w := After(true, steps);
    assert w.log[..n] == Whole(w)[..n];
  }

  // ---------------------------------------------------------------- an application belongs to one name

  /** Only `name` can hold the application: it holds it now, or it held it when it was removed. */
  ghost predicate Owns(s: State, app: string, name: string) {
    && (forall n <- s.repos :: s.repos[n].app == app ==> n == name)
    && (RetiredOwner(s.retired, app).Some? ==> RetiredOwner(s.retired, app).value == name)
    && ((name in s.repos && s.repos[name].app == app) || RetiredOwner(s.retired, app).Some?)
  }

  lemma {:induction false} OwnerLast(retired: seq<Removed>, x: Removed, app: string)
    ensures RetiredOwner(retired + [x], app)
         == if RetiredOwner(retired, app).Some? then RetiredOwner(retired, app)
            else if x.app == app then Some(x.name) else None
  {
    if retired != [] {
      assert (retired + [x])[1..] == retired[1..] + [x];
      OwnerLast(retired[1..], x, app);
    }
  }

  lemma OwnsStays(told: bool, s: State, r: Record, op: Op, app: string, name: string)
    requires Owns(s, app, name) && Apply(s, r).Some? && StepOk(told, s, r, op)
    ensures Owns(Apply(s, r).value, app, name)
    ensures r.Registered? && r.repo.app == app ==> r.repo.name == name
  {
    if r.Dropped? {
      OwnerLast(s.retired, r.removed, app);
    }
    hide RetiredOwner, GuardDestination, FindEvent;
  }

  lemma OwnsAtFirst(s: State, r: Record)
    requires r.Registered? && Apply(s, r).Some?
    ensures Owns(Apply(s, r).value, r.repo.app, r.repo.name)
  {
  }

  lemma {:induction false} OwnsFrom(log: seq<Record>, ops: seq<Op>, i: nat, k: nat)
    requires Good(log, ops) && i < k <= |log| && log[i].Registered?
    ensures Replays(log[..k]) && Owns(Replay(log[..k]).value, log[i].repo.app, log[i].repo.name)
    decreases k
  {
    hide Replay, StepOk, Apart, Good, Owns, Apply;
    StepAt(log, ops, k - 1);
    if k == i + 1 {
      OwnsAtFirst(Replay(log[..i]).value, log[i]);
    } else {
      OwnsFrom(log, ops, i, k - 1);
      OwnsStays(Apart(log[..k - 1]), Replay(log[..k - 1]).value, log[k - 1], ops[k - 1], log[i].repo.app,
                log[i].repo.name);
    }
  }

  /** However names are added, edited, removed and added again, no application is ever registered under two names. */
  lemma OneNamePerApplication(strict: bool, steps: seq<Step>, i: nat, j: nat)
    requires i < j < |After(strict, steps).log|
    requires After(strict, steps).log[i].Registered? && After(strict, steps).log[j].Registered?
    requires After(strict, steps).log[i].repo.app == After(strict, steps).log[j].repo.app
    ensures After(strict, steps).log[i].repo.name == After(strict, steps).log[j].repo.name
  {
    var w := After(strict, steps);
    RunIsGood(strict, steps);
    hide After, StepOk, Apply, Owns, Replay;
    OwnsFrom(w.log, w.ops, i, j);
    StepAt(w.log, w.ops, j);
    OwnsStays(Apart(w.log[..j]), Replay(w.log[..j]).value, w.log[j], w.ops[j], w.log[i].repo.app, w.log[i].repo.name);
  }

  // ---------------------------------------------------------------- events

  /** An event of the state was queued by a record. */
  lemma {:induction false} EventWasQueued(log: seq<Record>, app: string, delivery: string) returns (i: nat)
    requires Replays(log) && FindEvent(Replay(log).value.events, app, delivery).Some?
    ensures i < |log| && log[i] == Queued(FindEvent(Replay(log).value.events, app, delivery).value)
    ensures log[i].event.app == app && log[i].event.delivery == delivery
    decreases |log|
  {
    var k := |log| - 1;
    var s := Replay(log[..k]).value;
    if FindEvent(s.events, app, delivery).Some? {
      i := EventWasQueued(log[..k], app, delivery);
      if log[k].Queued? { FindLast(s.events, log[k].event, app, delivery); }
    } else {
      FindLast(s.events, log[k].event, app, delivery);
      i := k;
    }
  }

  /** A queued event stays queued. */
  lemma {:induction false} EventStays(log: seq<Record>, ops: seq<Op>, i: nat, k: nat)
    requires Good(log, ops) && i < k <= |log| && log[i].Queued?
    ensures Replays(log[..k])
    ensures FindEvent(Replay(log[..k]).value.events, log[i].event.app, log[i].event.delivery).Some?
    decreases k
  {
    hide Replay, Apply, StepOk, Good;
    StepAt(log, ops, k - 1);
    if k > i + 1 {
      EventStays(log, ops, i, k - 1);
    }
    EventKept(Replay(log[..k - 1]).value, log[k - 1], log[i].event.app, log[i].event.delivery);
  }

  lemma EventKept(s: State, r: Record, app: string, delivery: string)
    requires Apply(s, r).Some?
    requires || FindEvent(s.events, app, delivery).Some?
             || (r.Queued? && r.event.app == app && r.event.delivery == delivery)
    ensures FindEvent(Apply(s, r).value.events, app, delivery).Some?
  {
    if r.Queued? {
      FindLast(s.events, r.event, app, delivery);
    }
  }

  /** No delivery of an application is queued twice, in any run. */
  lemma QueuedOnce(strict: bool, steps: seq<Step>, i: nat, j: nat)
    requires i < j < |After(strict, steps).log|
    requires After(strict, steps).log[i].Queued? && After(strict, steps).log[j].Queued?
    ensures var log := After(strict, steps).log;
            log[i].event.app != log[j].event.app || log[i].event.delivery != log[j].event.delivery
  {
    var w := After(strict, steps);
    RunIsGood(strict, steps);
    hide After, Good, StepOk;
    EventStays(w.log, w.ops, i, j);
    StepAt(w.log, w.ops, j);
  }

  /**
    In every run, an observation that moves a ref away from what it was last seen at under the same registration
    comes after the record that queued that commit for the registration's application: a head that moved is never
    lost to a crash.
   */
  lemma MovedHeadIsQueuedFirst(strict: bool, steps: seq<Step>, j: nat) returns (i: nat)
    requires j < |After(strict, steps).log| && After(strict, steps).log[j].Observed?
    requires Replays(After(strict, steps).log[..j])
    requires var w := After(strict, steps);
             var s, x := Replay(w.log[..j]).value, w.log[j].seen;
             Live(s, x.repo).Some? && Baseline(s, s.repos[x.repo], x.refName) !in {None, Some(x.commit)}
    ensures var w := After(strict, steps);
            var s, x := Replay(w.log[..j]).value, w.log[j].seen;
            var r := s.repos[x.repo];
            && i < j && w.log[i].Queued?
            && w.log[i].event.app == r.app && w.log[i].event.revision == x.commit
            && w.log[i].event.delivery == PollDelivery(r.name, Incarnation(s.retired, r.app), x.commit)
  {
    var w := After(strict, steps);
    RunIsGood(strict, steps);
    hide After, Good;
    StepAt(w.log, w.ops, j);
    var s, x := Replay(w.log[..j]).value, w.log[j].seen;
    var r := s.repos[x.repo];
    hide Replay, PollDelivery;
    i := EventWasQueued(w.log[..j], r.app, PollDelivery(r.name, Incarnation(s.retired, r.app), x.commit));
    assert w.log[..j][i] == w.log[i];
  }

  // ---------------------------------------------------------------- why the clock has to move on

  ghost predicate Reaches(w: World) {
    exists steps :: After(false, steps) == w
  }

  lemma ReachesNext(w: World, e: Step)
    requires Reaches(w)
    ensures Reaches(Next(false, w, e))
  {
    var steps :| After(false, steps) == w;
    assert (steps + [e])[..|steps|] == steps;
    assert After(false, steps + [e]) == Next(false, w, e);
  }

  /** Nobody holds the lock. */
  ghost predicate Idle(w: World) {
    Reaches(w) && w.holder.None? && w.todo == [] && Replays(w.log)
  }

  function With(r: Repo, versions: map<string, nat>): State {
    EMPTY.(repos := map[r.name := r], versions := versions)
  }

  /** A plan of one record and the state it leads to. */
  ghost predicate Leads(s: State, op: Op, newId: string, t: nat, r: Record, next: State) {
    Readings(op) == 1 && Plan(s, op, newId, 0, [t]) == [r] && Apply(s, r) == Some(next)
  }

  /** An operation that was started locks, appends its one record and lets go. */
  lemma Finishes(w: World, op: Op, newId: string, t: nat, r: Record, next: State)
    returns (v: World)
    requires Idle(w) && op in w.started && !op.Run?
    requires Leads(Replay(w.log).value, op, newId, t, r, next)
    ensures Idle(v) && v.log == w.log + [r] && v.started == w.started
    ensures Replay(v.log) == Some(next)
  {
    hide Plan, Apply, Reaches, Replay;
    var e := Lock(op, newId, 0, [t]);
    ReachesNext(w, e);
    var w1 := Next(false, w, e);
    ReachesNext(w1, Append);
    var w2 := Next(false, w1, Append);
    ReachesNext(w2, Release);
    v := Next(false, w2, Release);
    ReplayOne(w.log, r);
  }

  lemma Starts(w: World, op: Op) returns (v: World)
    requires Idle(w) && Found(Replay(w.log).value, op)
    ensures Idle(v) && v == w.(started := w.started + {op})
  {
    hide Found, Reaches, Replay;
    ReachesNext(w, Start(op));
    v := Next(false, w, Start(op));
  }

  /** Registering again what the name has, with or without a credential, needs no destination. */
  lemma RegistersAgain(was: Repo, r: Repo, versions: map<string, nat>)
    requires was.name == r.name && was.app == r.app && was.url == r.url
    ensures Leads(With(was, versions), Add(r, None, false, false), "", r.at, Registered(r), With(r, versions))
  {
    hide Destination, CredentialId;
    assert map[was.name := was][r.name := r] == map[r.name := r];
  }

  lemma RegistersFirst(r: Repo)
    ensures Leads(EMPTY, Add(r, None, false, false), r.app, r.at, Registered(r), With(r, map[]))
  {
    var none: map<string, Repo> := map[];
    assert none[r.name := r] == map[r.name := r];
  }

  lemma SavesFirst(r: Repo, t: nat)
    requires r.cred != NoCred
    ensures var id := CredentialId(r.name);
            Leads(With(r, map[]), Save(r.name, "credential"), "", t, Saved(id, 1), With(r, map[id := 1]))
  {
    var none: map<string, nat> := map[];
    assert none[CredentialId(r.name) := 1] == map[CredentialId(r.name) := 1];
  }

  lemma EditsBlindly(a: Repo, b: Repo, versions: map<string, nat>)
    requires Edits(a, b)
    ensures Leads(With(a, versions), Update(a, b), "", a.at, Registered(b.(at := a.at + 1)),
                  With(b.(at := a.at + 1), versions))
  {
    var c := b.(at := a.at + 1);
    assert map[a.name := a][c.name := c] == map[c.name := c];
  }

  /** The edit is opened on the registration `a`; then the name is registered with a credential. */
  lemma OpensThenRegisters(a: Repo, b: Repo, begun: set<Op>) returns (w: World)
    requires a.cred == NoCred && Edits(a, b)
    requires begun == {Add(a, None, false, false), Add(a.(cred := Token), None, false, false),
                       Save(a.name, "credential")}
    ensures Idle(w) && w.started == begun + {Update(a, b)} && |w.log| == 2
    ensures Replay(w.log) == Some(With(a.(cred := Token), map[]))
  {
    assert After(false, []) == FIRST;
    assert Idle(FIRST);
    var held := a.(cred := Token);
    var add, again, save := Add(a, None, false, false), Add(held, None, false, false), Save(a.name, "credential");
    RegistersFirst(a);
    RegistersAgain(a, held, map[]);
    assert Found(With(a, map[]), Update(a, b)) by { hide Destination; }
    assert FIRST.started == {} && FIRST.log == [] && Replay(FIRST.log) == Some(EMPTY);
    assert forall s: State :: Found(s, add) && Found(s, again) && Found(s, save);
    hide *;
    w := Starts(FIRST, add);
    w := Starts(w, again);
    w := Starts(w, save);
    w := Finishes(w, add, a.app, a.at, Registered(a), With(a, map[]));
    w := Starts(w, Update(a, b));
    w := Finishes(w, again, "", a.at, Registered(held), With(held, map[]));
  }

  /**
    With a clock that may show the same time twice, the promise fails: whatever the registration and the edit that
    moves it, the edit can be opened, the name registered with a credential, the credential saved, the first
    registration repeated to the letter, and the edit recorded as if nothing had happened.
   */
  lemma RepeatedClockMovesACredential(a: Repo, b: Repo)
    requires a.cred == NoCred && Edits(a, b) && !SamePlace(a.url, b.url)
    ensures exists w: World :: Reaches(w) && |w.log| == 5
              && w.log[2] == Saved(CredentialId(a.name), 1)
              && Replays(w.log[..2]) && Live(Replay(w.log[..2]).value, a.name) == Some(a.(cred := Token))
              && w.log[4] == Registered(b.(at := a.at + 1))
  {
    var held, id := a.(cred := Token), CredentialId(a.name);
    var add, again, save :=
      Add(a, None, false, false), Add(held, None, false, false), Save(a.name, "credential");
    var w := OpensThenRegisters(a, b, {add, again, save});
    SavesFirst(held, a.at);
    RegistersAgain(held, a, map[id := 1]);
    EditsBlindly(a, b, map[id := 1]);
    assert Live(With(held, map[]), a.name) == Some(held);
    hide Replay, Reaches, Leads, With, Edits, CredentialId, SamePlace;
    ghost var log2 := w.log;
    w := Finishes(w, save, "", a.at, Saved(id, 1), With(held, map[id := 1]));
    w := Finishes(w, add, "", a.at, Registered(a), With(a, map[id := 1]));
    w := Finishes(w, Update(a, b), "", a.at, Registered(b.(at := a.at + 1)), With(b.(at := a.at + 1), map[id := 1]));
    assert w.log[..2] == log2;
  }
}
