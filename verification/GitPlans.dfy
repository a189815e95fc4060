/**
  Exactly when each command of deploy-cli/src/git_cmds.rs records what it was asked for, once it holds the writer lock:
  `GitRuns.Says` is what its record then says.
 */
module GitPlans {
  import opened Bytes
  import opened Destinations
  import GitPolling
  import opened GitRegistry
  import opened GitRuns
  import opened GitSafety

  // ---------------------------------------------------------------- one record at a time

  /** No other name holds the application, and no other name held it when it was removed. */
  ghost predicate FreeFor(s: State, app: string, name: string) {
    && (forall n <- s.repos :: s.repos[n].app == app ==> n == name)
    && RetiredOwner(s.retired, app) in {None, Some(name)}
  }

  /** A credential is on record for the name, by its registration, by the one last removed, or by a saved version. */
  predicate HasCredential(s: State, name: string) {
    match Anchor(s, name)
    case Some((_, cred)) => cred != NoCred || CredentialId(name) in s.versions
    case None => false
  }

  /** The application a registration of the name gets. */
  function AppOf(s: State, name: string, requested: Option<string>, newApp: string): string {
    match requested
    case Some(a) => a
    case None => if name in s.repos then s.repos[name].app else newApp
  }

  /** The operation is recorded: nothing it started from has changed, and no rule is against it. */
  ghost predicate Granted(s: State, op: Op, newId: string, skip: nat) {
    match op
    case Add(asked, requested, createOnly, confirmed) =>
      var name, app := asked.name, AppOf(s, asked.name, requested, newId);
      && FreeFor(s, app, name)
      && (name in s.repos ==> !createOnly && app == s.repos[name].app)
      // claiming the application of a removed registration again is explicit
      && (name !in s.repos && requested.Some? && RetiredOwner(s.retired, app).Some? ==> confirmed)
      && (HasCredential(s, name) ==> SamePlace(Anchor(s, name).value.0, asked.url))
    case Update(current, edited) => Live(s, current.name) == Some(current) && FreeFor(s, edited.app, edited.name)
    case Run(repo, _, _, _, _) => Live(s, repo.name) == Some(repo)
    case Poll(repo, _, _) => Live(s, repo.name) == Some(repo)
    case Remove(shown) => Live(s, shown.name) == Some(shown)
    case Save(name, what) =>
      && name in s.repos && skip <= 8
      && ((what == "credential" && s.repos[name].cred != NoCred)
          || (what == "webhook" && s.repos[name].settings.webhook.Some?))
    case Deliver(name, branch, delivery, _, _) =>
      && name in s.repos && WantsBranch(s.repos[name], branch)
      && DeliveryOk(delivery) && FindEvent(s.events, s.repos[name].app, delivery).None?
  }

  lemma RegisteredIff(s: State, x: Repo)
    ensures Apply(s, Registered(x)).Some? <==> FreeFor(s, x.app, x.name)
  {
    hide RetiredOwner;
  }

  /** An operation other than a poll is recorded exactly when nothing stands against it. */
  lemma PlanIff(s: State, op: Op, newId: string, skip: nat, times: seq<nat>)
    requires |times| == Readings(op) && !op.Poll?
    ensures Plan(s, op, newId, skip, times) != [] <==> Granted(s, op, newId, skip)
    ensures |Plan(s, op, newId, skip, times)| <= 1
  {
    match op
    case Add(asked, requested, createOnly, confirmed) =>
      var app := AppOf(s, asked.name, requested, newId);
      RegisteredIff(s, asked.(app := app, at := times[0]));
      hide Apply, Destination, RetiredOwner, RetiredName;
    case Update(current, edited) =>
      var at := if times[0] > current.at + 1 then times[0] else current.at + 1;
      RegisteredIff(s, edited.(at := at));
      hide Apply;
    case Run(_, _, _, _, _) =>
    case Remove(_) =>
    case Save(_, _) => hide SecretId;
    case Deliver(name, branch, delivery, source, revision) => hide WantsBranch, DeliveryOk, FindEvent;
  }

  // ---------------------------------------------------------------- edits are never refused by the replay

  /** In every run an application is free for the name that holds it: an edit only has to find what it was opened on. */
  lemma EditIsRecordedIff(strict: bool, steps: seq<Step>, current: Repo, edited: Repo, times: seq<nat>)
    requires Edits(current, edited) && |times| == 1
    ensures var w := After(strict, steps);
            && Replays(w.log)
            && (Plan(Replay(w.log).value, Update(current, edited), "", 0, times) != []
                <==> Live(Replay(w.log).value, current.name) == Some(current))
  {
    var w := After(strict, steps);
    RunIsGood(strict, steps);
    hide After, Good, Replay, StepOk;
    GoodReplays(w.log, w.ops);
    var s := Replay(w.log).value;
    PlanIff(s, Update(current, edited), "", 0, times);
    if Live(s, current.name) == Some(current) {
      var i := LiveWasRegistered(w.log, current.name);
      OwnsFrom(w.log, w.ops, i, |w.log|);
      assert w.log[..|w.log|] == w.log;
    }
  }

  lemma GoodReplays(log: seq<Record>, ops: seq<Op>)
    requires Good(log, ops)
    ensures Replays(log)
  {
  }

  // ---------------------------------------------------------------- a poll pass leaves nothing out

  /** The head's observation, and behind a head that moved its event: in the pass or queued before it. */
  ghost predicate Covered(s: State, events: seq<Event>, r: Repo, h: Head, late: bool, p: seq<Record>) {
    && (!Skipped(s, r, h) ==> exists t :: SeenNow(r, h, t) in p)
    && (Moved(s, r, h) ==>
          || (exists t :: Queued(MovedEvent(s, r, h, late, t)) in p)
          || (var e := MovedEvent(s, r, h, late, 0);
              var had := FindEvent(events, e.app, e.delivery);
              had.Some? && had.value.source == e.source && had.value.revision == e.revision))
  }

  /** A pass that is not refused covers every head it was given. */
  lemma {:induction false} PassIsComplete(s: State, events: seq<Event>, r: Repo, heads: seq<Head>, late: bool,
                                          times: seq<nat>)
    requires |times| >= 2 * |heads| && !PollPlan(s, events, r, heads, late, times).refused
    ensures forall h <- heads :: Covered(s, events, r, h, late, PollPlan(s, events, r, heads, late, times).records)
    decreases |heads|
  {
    if heads != [] {
      var p := PollPlan(s, events, r, heads, late, times).records;
      var h, e := heads[0], MovedEvent(s, r, heads[0], late, times[0]);
      FirstIsCovered(s, events, r, heads, late, times);
      var queued := Moved(s, r, h) && Queue(events, e).Held?;
      var later := if queued then events + [e] else events;
      var rest := PollPlan(s, later, r, heads[1..], late, times[2..]);
      assert !rest.refused && forall x <- rest.records :: x in p;
      PassIsComplete(s, later, r, heads[1..], late, times[2..]);
      forall g | g in heads ensures Covered(s, events, r, g, late, p) {
        if g != h {
          assert g in heads[1..];
          CoveredEarlier(s, events, later, r, h, g, late, times[0], rest.records, p, queued);
        }
      }
    }
  }

  lemma FirstIsCovered(s: State, events: seq<Event>, r: Repo, heads: seq<Head>, late: bool, times: seq<nat>)
    requires heads != [] && |times| >= 2 * |heads| && !PollPlan(s, events, r, heads, late, times).refused
    ensures Covered(s, events, r, heads[0], late, PollPlan(s, events, r, heads, late, times).records)
  {
    hide Baseline, WantsBranch, PollDelivery, FindEvent, DeliveryOk;
    var p := PollPlan(s, events, r, heads, late, times).records;
    var h, e := heads[0], MovedEvent(s, r, heads[0], late, times[0]);
    if !Skipped(s, r, h) {
      assert SeenNow(r, h, times[1]) in p;
      if Moved(s, r, h) && Queue(events, e).Held? {
        assert p[0] == Queued(e);
      }
    }
  }

  /** What covers a head behind the first one covers it in the whole pass. */
  lemma CoveredEarlier(s: State, events: seq<Event>, later: seq<Event>, r: Repo, h: Head, g: Head, late: bool, t: nat,
                       rest: seq<Record>, p: seq<Record>, queued: bool)
    requires Covered(s, later, r, g, late, rest) && forall x <- rest :: x in p
    requires later == if queued then events + [MovedEvent(s, r, h, late, t)] else events
    requires queued ==> Queued(MovedEvent(s, r, h, late, t)) in p
    ensures Covered(s, events, r, g, late, p)
  {
    var e, mine := MovedEvent(s, r, h, late, t), MovedEvent(s, r, g, late, 0);
    if queued {
      FindLast(events, e, mine.app, mine.delivery);
      if e.delivery == mine.delivery {
        GitPolling.CommitReads(r.name, Incarnation(s.retired, r.app), h.commit, g.commit);
        assert e == MovedEvent(s, r, g, late, t);
      }
    }
    hide FindEvent, PollDelivery, Skipped, Moved;
  }
}
