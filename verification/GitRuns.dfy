/**
  The registration protocol (deploy-cli/src/git_cmds.rs): any number of processes read the journal without the lock,
  do slow work, take the exclusive writer lock, look again and append; a process may die between any two steps. What
  every run keeps, whatever the interleaving.
 */
module GitRuns {
  import opened Bytes
  import opened Destinations
  import opened GitRegistry

  // ---------------------------------------------------------------- operations

  datatype Op =
    | Add(asked: Repo, requested: Option<string>, createOnly: bool, confirmed: bool)
    | Update(current: Repo, edited: Repo)
    | Run(repo: Repo, sel: Selector, commit: string, trigger: string, delivery: Option<string>)
    | Poll(repo: Repo, heads: seq<Head>, late: bool)
    | Remove(shown: Repo)
    | Save(name: string, what: string)
    | Deliver(name: string, branch: string, deliveryId: string, source: string, revision: string)

  /** An edit changes the address, the branch, the Dockerfile, the port and the health path, and nothing else. */
  predicate Edits(current: Repo, edited: Repo) {
    var s := edited.settings;
    edited == current.(url := edited.url, branch := edited.branch,
                       settings := current.settings.(port := s.port, dockerfile := s.dockerfile,
                                                     healthPath := s.healthPath))
  }

  /** Git lists every ref of a remote once. */
  predicate Distinct(heads: seq<Head>) {
    forall i, j | 0 <= i < j < |heads| :: heads[i].branch != heads[j].branch
  }

  /** What the operation found when it looked without the lock. */
  predicate Found(s: State, op: Op) {
    match op
    case Update(current, edited) =>
      && Live(s, current.name) == Some(current)
      && Edits(current, edited)
      && GuardDestination(s, current.name, edited.url)
    case Run(r, _, _, _, _) => Live(s, r.name) == Some(r)
    case Poll(r, heads, _) => Live(s, r.name) == Some(r) && Distinct(heads)
    case Remove(shown) => Live(s, shown.name) == Some(shown)
    case _ => true
  }

  /** What it appends once it holds the lock and has looked again. */
  function Plan(s: State, op: Op, newId: string, skip: nat, times: seq<nat>): seq<Record>
    requires |times| == Readings(op)
  {
    match op
    case Add(asked, requested, createOnly, confirmed) =>
      Listed(AddPlan(s, asked, requested, createOnly, confirmed, newId, times[0]))
    case Update(current, edited) => Listed(UpdatePlan(s, current, edited, times[0]))
    case Run(r, sel, commit, trigger, delivery) =>
      Listed(SourcePlan(s, r, newId, sel, commit, trigger, delivery, times[0]))
    case Poll(r, heads, late) =>
      if Live(s, r.name) != Some(r) then [] else PollPlan(s, s.events, r, heads, late, times).records
    case Remove(shown) => Listed(RemovePlan(s, shown, times[0]))
    case Save(name, what) => Listed(SavePlan(s, name, what, skip))
    case Deliver(name, branch, delivery, source, revision) =>
      Listed(DeliverPlan(s, name, branch, delivery, source, revision, times[0]))
  }

  function Listed(r: Option<Record>): seq<Record> {
    if r.Some? then [r.value] else []
  }

  /** How often an operation may read the clock. */
  function Readings(op: Op): nat {
    if op.Poll? then 2 * |op.heads| + 1 else 1
  }

  // ---------------------------------------------------------------- the world

  /** `ops[i]` is the operation that wrote `log[i]`. */
  datatype World = World(log: seq<Record>, ops: seq<Op>, started: set<Op>, todo: seq<Record>,
                         holder: Option<Op>, clock: nat)

  datatype Step =
    | Start(op: Op)
    | Lock(op: Op, newId: string, skip: nat, times: seq<nat>)
    | Append
    | Release

  const FIRST := World([], [], {}, [], None, 0)

  predicate Increasing(times: seq<nat>, after: nat) {
    && (times != [] ==> times[0] > after)
    && forall i | 0 < i < |times| :: times[i] > times[i - 1]
  }

  /** With `strict` every reading of the clock is later than the one before. An identifier is never given twice. */
  predicate Enabled(strict: bool, w: World, e: Step) {
    match e
    case Start(op) => Replays(w.log) && Found(Replay(w.log).value, op)
    case Lock(op, newId, skip, times) =>
      && op in w.started && w.holder.None? && |times| == Readings(op)
      && (strict ==> Increasing(times, w.clock))
      && Replays(w.log)
      && (op.Run? ==> forall x <- Replay(w.log).value.sources :: x.deployment != newId)
    case Append => w.holder.Some? && w.todo != []
    case Release => w.holder.Some?
  }

  /** Releasing the lock with records left is a refused append, or a process that died. */
  function Next(strict: bool, w: World, e: Step): World {
    if !Enabled(strict, w, e) then w
    else
      match e
      case Start(op) => w.(started := w.started + {op})
      case Lock(op, newId, skip, times) =>
        w.(holder := Some(op), todo := Plan(Replay(w.log).value, op, newId, skip, times),
           clock := times[|times| - 1])
      case Append =>
        w.(log := w.log + [w.todo[0]], ops := w.ops + [w.holder.value], todo := w.todo[1..])
      case Release => w.(holder := None, todo := [])
  }

  function After(strict: bool, steps: seq<Step>): World {
    if steps == [] then FIRST else Next(strict, After(strict, steps[..|steps| - 1]), steps[|steps| - 1])
  }

  // ---------------------------------------------------------------- what every record was when it was appended

  /** The event that must be queued before a moved head may be recorded as seen. */
  predicate QueuedFor(s: State, r: Repo, commit: string) {
    var e := FindEvent(s.events, r.app, PollDelivery(r.name, Incarnation(s.retired, r.app), commit));
    e.Some? && e.value.revision == commit
  }

  /** No registration was recorded twice to the letter, its time included. */
  ghost predicate Apart(log: seq<Record>) {
    forall i, j :: 0 <= i < j < |log| && log[i].Registered? ==> log[j] != log[i]
  }

  /** What a deployment is on record as having asked for; a commit has no name of its own. */
  predicate Requests(sel: Selector, x: Source) {
    match sel
    case Branch(b) => x.selector == BranchKind && x.requested == b
    case Tag(t) => x.selector == TagKind && x.requested == t
    case Commit(_) => x.selector == CommitKind && x.requested == "-"
  }

  /** The event of a head of this pass. */
  predicate IsMoved(s: State, r: Repo, late: bool, h: Head, e: Event) {
    && WantsBranch(r, h.branch)
    && e.app == r.app && e.revision == h.commit && e.source == PollSource(late)
    && e.delivery == PollDelivery(r.name, Incarnation(s.retired, r.app), h.commit)
  }

  /** The record says what its operation was asked to do, of the registration it was asked to do it for. */
  ghost predicate Says(s: State, r: Record, op: Op) {
    match r
    case Registered(x) =>
      (match op
       case Add(asked, requested, createOnly, _) =>
         && x == asked.(app := x.app, at := x.at)
         && (requested.Some? ==> x.app == requested.value)
         && (requested.None? && Live(s, x.name).Some? ==> x.app == Live(s, x.name).value.app)
         && (createOnly ==> Live(s, x.name).None?)
       case Update(current, edited) =>
         && Live(s, current.name) == Some(current)
         && x == edited.(at := x.at) && x.at > current.at
       case _ => false)
    case Dropped(x) =>
      && op.Remove? && Live(s, x.name) == Some(op.shown)
      && x.name == op.shown.name && x.app == op.shown.app && x.registration == op.shown.at
      && x.url == op.shown.url && x.cred == op.shown.cred
    case Sourced(x) =>
      && op.Run? && Live(s, x.repo) == Some(op.repo)
      && x.repo == op.repo.name && x.url == op.repo.url && x.commit == op.commit && Requests(op.sel, x)
      && x.trigger == op.trigger && x.delivery == op.delivery
    case Observed(x) =>
      && op.Poll? && Live(s, x.repo) == Some(op.repo)
      && x.repo == op.repo.name
      && exists h <- op.heads :: WantsBranch(op.repo, h.branch) && x.refName == RefOf(h.branch) && x.commit == h.commit
    case Saved(id, version) =>
      && op.Save? && op.what in {"credential", "webhook"} && id == SecretId(op.name, op.what)
      && Live(s, op.name).Some?
      && version > (if id in s.versions then s.versions[id] else 0)
    case Queued(e) =>
      (match op
       case Poll(repo, heads, late) =>
         Live(s, repo.name) == Some(repo) && exists h <- heads :: IsMoved(s, repo, late, h, e)
       case Deliver(name, branch, delivery, source, revision) =>
         && Live(s, name).Some? && WantsBranch(Live(s, name).value, branch)
         && e.app == Live(s, name).value.app
         && e.delivery == delivery && e.source == source && e.revision == revision
       case _ => false)
  }

  /** And it keeps the rules. With `told`, every registration so far can be told from every other. */
  ghost predicate Keeps(told: bool, s: State, r: Record, op: Op) {
    match r
    case Observed(x) =>
      op.Poll?
      && (Baseline(s, op.repo, x.refName) in {None, Some(x.commit)} || QueuedFor(s, op.repo, x.commit))
    case Saved(id, _) =>
      forall name :: id == CredentialId(name) ==> Live(s, name).Some? && Live(s, name).value.cred != NoCred
    case Registered(x) =>
      && (Live(s, x.name).Some? ==> Live(s, x.name).value.app == x.app)
      && (told ==> GuardDestination(s, x.name, x.url))
    case _ => true
  }

  ghost predicate StepOk(told: bool, s: State, r: Record, op: Op) {
    Says(s, r, op) && Keeps(told, s, r, op)
  }

  ghost predicate Good(log: seq<Record>, ops: seq<Op>) {
    && |log| == |ops|
    && Replays(log)
    && forall i :: 0 <= i < |log| ==>
         Replays(log[..i]) && StepOk(Apart(log[..i]), Replay(log[..i]).value, log[i], ops[i])
  }

  /** Registrations carry later and later times, none of them after `clock`. */
  ghost predicate Stamped(log: seq<Record>, clock: nat) {
    && (forall i :: 0 <= i < |log| && log[i].Registered? ==> log[i].repo.at <= clock)
    && forall i, j :: 0 <= i < j < |log| && log[i].Registered? && log[j].Registered? ==>
         log[i].repo.at < log[j].repo.at
  }

  lemma {:induction false} ReplayPrefix(log: seq<Record>, n: nat)
    requires Replays(log) && n <= |log|
    ensures Replays(log[..n])
    decreases |log| - n
  {
    if n < |log| {
      ReplayPrefix(log, n + 1);
      assert log[..n + 1][..n] == log[..n];
    } else {
      assert log[..n] == log;
    }
  }

  lemma ReplayOne(log: seq<Record>, r: Record)
    requires Replays(log)
    ensures Replay(log + [r]) == Apply(Replay(log).value, r)
  {
    assert (log + [r])[..|log|] == log;
  }

  lemma ReplayLast(log: seq<Record>)
    requires log != [] && Replays(log)
    ensures var k := |log| - 1; Replays(log[..k]) && Apply(Replay(log[..k]).value, log[k]) == Replay(log)
  {
    hide Apply;
  }

  lemma GoodPrefix(log: seq<Record>, ops: seq<Op>, n: nat)
    requires Good(log, ops) && n <= |log|
    ensures Good(log[..n], ops[..n])
  {
    hide StepOk, Replay;
    ReplayPrefix(log, n);
    forall i | 0 <= i < n ensures log[..n][..i] == log[..i] {}
  }

  lemma GoodOne(log: seq<Record>, ops: seq<Op>, r: Record, f: Op)
    requires Good(log, ops)
    requires Apply(Replay(log).value, r).Some? && StepOk(Apart(log), Replay(log).value, r, f)
    ensures Good(log + [r], ops + [f]) && Replay(log + [r]) == Apply(Replay(log).value, r)
  {
    hide StepOk, Replay, Apply;
    ReplayOne(log, r);
    forall i | 0 <= i < |log| + 1
      ensures (log + [r])[..i] == if i == |log| then log else log[..i]
    {}
  }

  // ---------------------------------------------------------------- nothing about an unchanged registration changes

  /** A registration that is live was registered by some record. */
  lemma {:induction false} LiveWasRegistered(log: seq<Record>, name: string) returns (i: nat)
    requires Replays(log) && Live(Replay(log).value, name).Some?
    ensures i < |log| && log[i] == Registered(Replay(log).value.repos[name])
    ensures Replay(log).value.repos[name].name == name
    decreases |log|
  {
    var k := |log| - 1;
    var s := Replay(log[..k]).value;
    if log[k].Registered? && log[k].repo.name == name {
      i := k;
    } else {
      i := LiveWasRegistered(log[..k], name);
    }
  }

  lemma ReplaysIs(log: seq<Record>)
    ensures Replays(log) <==> Replay(log).Some?
  {
  }

  /**
    A registration that is the same at two times was not touched between them, so without a credential of its own no
    credential was saved for it. This is where registrations must differ, as the clock makes them.
   */
  lemma {:induction false} NoneSavedMeanwhile(log: seq<Record>, ops: seq<Op>, n: nat, r: Repo)
    requires Good(log, ops) && Apart(log) && n <= |log|
    requires Replays(log[..n])
    requires Live(Replay(log[..n]).value, r.name) == Some(r) == Live(Replay(log).value, r.name)
    requires r.cred == NoCred
    requires CredentialId(r.name) !in Replay(log[..n]).value.versions
    ensures CredentialId(r.name) !in Replay(log).value.versions
    decreases |log|
  {
    hide *;
    if n == |log| {
      assert log[..n] == log;
    } else {
      ReplaysIs(log);
      ReplaysIs(log[..n]);
      ReplaysIs(log[..|log| - 1]);
      var k := |log| - 1;
      var before := log[..k];
      GoodLast(log, ops);
      assert before[..n] == log[..n];
      var s, x := Replay(before).value, log[k];
      if x.Registered? && x.repo.name == r.name {
        RegisteredTwice(log, n, r);
      } else {
        SameBefore(Apart(before), s, x, ops[k], r);
        NoneSavedMeanwhile(before, ops[..k], n, r);
      }
    }
  }

  /** A name that is registered again has another registration than before. */
  lemma RegisteredTwice(log: seq<Record>, n: nat, r: Repo)
    requires Apart(log) && n < |log| && Replays(log) && Replays(log[..n]) && Replays(log[..|log| - 1])
    requires log[|log| - 1].Registered? && log[|log| - 1].repo.name == r.name
    requires Apply(Replay(log[..|log| - 1]).value, log[|log| - 1]) == Replay(log)
    requires Live(Replay(log[..n]).value, r.name) == Some(r)
    ensures Live(Replay(log).value, r.name) != Some(r)
  {
    hide Replay, Apart;
    var i := LiveWasRegistered(log[..n], r.name);
    ApartAt(log, i, |log| - 1);
  }

  lemma ApartAt(log: seq<Record>, i: nat, j: nat)
    requires Apart(log) && i < j < |log| && log[i].Registered?
    ensures log[i] != log[j]
  {
  }

  lemma ApartPrefix(log: seq<Record>, n: nat, m: nat)
    requires n <= m <= |log| && Apart(log[..m])
    ensures Apart(log[..n])
  {
    forall i, j | 0 <= i < j < n && log[..n][i].Registered? ensures log[..n][j] != log[..n][i] {
      ApartAt(log[..m], i, j);
    }
  }

  /** A record that is no registration of the name leaves it as it was, and saves nothing for it. */
  lemma SameBefore(told: bool, s: State, x: Record, f: Op, r: Repo)
    requires Apply(s, x).Some? && StepOk(told, s, x, f)
    requires Live(Apply(s, x).value, r.name) == Some(r) && r.cred == NoCred
    requires x.Registered? ==> x.repo.name != r.name
    ensures Live(s, r.name) == Some(r)
    ensures CredentialId(r.name) in Apply(s, x).value.versions ==> CredentialId(r.name) in s.versions
  {
    hide RetiredOwner, FindEvent, CredentialId, GuardDestination, Baseline, QueuedFor;
  }

  /** The last record, and the journal before it. */
  lemma GoodLast(log: seq<Record>, ops: seq<Op>)
    requires Good(log, ops) && log != []
    ensures var k := |log| - 1;
            && |ops| == |log| && Replays(log) && Good(log[..k], ops[..k]) && Replays(log[..k])
            && (Apart(log) ==> Apart(log[..k]))
            && Apply(Replay(log[..k]).value, log[k]) == Replay(log)
            && StepOk(Apart(log[..k]), Replay(log[..k]).value, log[k], ops[k])
  {
    hide StepOk, Apply, Replay, Apart;
    var k := |log| - 1;
    GoodPrefix(log, ops, k);
    ReplayLast(log);
    if Apart(log) {
      assert log[..|log|] == log;
      ApartPrefix(log, k, |log|);
    }
  }

  // ---------------------------------------------------------------- the plans append only what is right

  lemma AddIsOk(told: bool, s: State, op: Op, newId: string, now: nat)
    requires op.Add?
    ensures var p := AddPlan(s, op.asked, op.requested, op.createOnly, op.confirmed, newId, now);
            p.Some? ==> Apply(s, p.value).Some? && StepOk(told, s, p.value, op)
  {
    hide Apply, GuardClaim, GuardDestination;
  }

  /** The id of a saved secret says whose it is and what it is. */
  lemma CredentialIdReads(name: string, what: string, other: string)
    requires what == "credential" || what == "webhook"
    requires SecretId(name, what) == CredentialId(other)
    ensures name == other
  {
    var id := SecretId(name, what);
    assert id[|id| - 1] == what[|what| - 1];
    assert CredentialId(other)[|id| - 1] == "credential"[9];
    assert id[4..|id| - 11] == name;
    assert CredentialId(other)[4..|id| - 11] == other;
  }

  lemma SaveIsOk(told: bool, s: State, op: Op, skip: nat)
    requires op.Save?
    ensures var p := SavePlan(s, op.name, op.what, skip);
            p.Some? ==> Apply(s, p.value).Some? && StepOk(told, s, p.value, op)
  {
    var name, what := op.name, op.what;
    var p := SavePlan(s, name, what, skip);
    if p.Some? {
      forall other | p.value.id == CredentialId(other) ensures other == name && what == "credential" {
        CredentialIdReads(name, what, other);
        assert SecretId(name, what)[|p.value.id| - 1] == what[|what| - 1];
        assert CredentialId(other)[|p.value.id| - 1] == "credential"[9];
      }
    }
  }

  lemma RemoveIsOk(told: bool, s: State, op: Op, now: nat)
    requires op.Remove?
    ensures var p := RemovePlan(s, op.shown, now);
            p.Some? ==> Apply(s, p.value).Some? && StepOk(told, s, p.value, op)
  {
    hide Apply;
  }

  lemma DeliverIsOk(told: bool, s: State, op: Op, now: nat)
    requires op.Deliver?
    ensures var p := DeliverPlan(s, op.name, op.branch, op.deliveryId, op.source, op.revision, now);
            p.Some? ==> Apply(s, p.value).Some? && StepOk(told, s, p.value, op)
  {
    hide WantsBranch;
  }

  lemma UpdateIsOk(log: seq<Record>, ops: seq<Op>, n: nat, current: Repo, edited: Repo, now: nat)
    requires Good(log, ops)
    requires n <= |log| && Replays(log[..n]) && Found(Replay(log[..n]).value, Update(current, edited))
    ensures var p := UpdatePlan(Replay(log).value, current, edited, now);
            p.Some? ==> Apply(Replay(log).value, p.value).Some?
                        && StepOk(Apart(log), Replay(log).value, p.value, Update(current, edited))
  {
    var s := Replay(log).value;
    hide Apply, Replay, Good, SamePlace, Apart, Destination, RetiredName;
    if Apart(log) && Live(s, current.name) == Some(current) && current.cred == NoCred
       && CredentialId(current.name) !in Replay(log[..n]).value.versions {
      NoneSavedMeanwhile(log, ops, n, current);
    }
  }

  lemma RunIsOk(told: bool, s: State, op: Op, newId: string, now: nat)
    requires op.Run? && forall x <- s.sources :: x.deployment != newId
    ensures var p := SourcePlan(s, op.repo, newId, op.sel, op.commit, op.trigger, op.delivery, now);
            p.Some? ==> Apply(s, p.value).Some? && StepOk(told, s, p.value, op)
  {
  }

  /** These heads are some of the heads of the operation's pass. */
  predicate PassOf(op: Op, r: Repo, heads: seq<Head>, late: bool) {
    op.Poll? && op.repo == r && op.late == late && forall h <- heads :: h in op.heads
  }

  /** The state has grown while the pass works, but not in what decides about the heads still to come. */
  ghost predicate Agree(s: State, now: State, r: Repo, heads: seq<Head>) {
    && now.repos == s.repos && now.retired == s.retired
    && forall i :: 0 <= i < |heads| ==>
         Baseline(s, r, RefOf(heads[i].branch)) == Baseline(now, r, RefOf(heads[i].branch))
  }

  function Same<T>(x: T, n: nat): seq<T> {
    seq(n, _ => x)
  }

  /** An observation of the first head leaves what decides about the others as it was. */
  lemma SeenAgrees(s: State, now: State, r: Repo, heads: seq<Head>, t: nat)
    requires heads != [] && Distinct(heads) && Agree(s, now, r, heads)
    requires Live(now, r.name) == Some(r)
    ensures var next := Apply(now, SeenNow(r, heads[0], t));
            next.Some? && Agree(s, next.value, r, heads[1..]) && next.value.events == now.events
            && Live(next.value, r.name) == Some(r)
  {
    var next := Apply(now, SeenNow(r, heads[0], t)).value;
    forall i | 0 <= i < |heads[1..]|
      ensures Baseline(now, r, RefOf(heads[1..][i].branch)) == Baseline(next, r, RefOf(heads[1..][i].branch))
    {
      RefReads(heads[0].branch, heads[i + 1].branch);
    }
  }

  lemma RefReads(a: string, b: string)
    requires a != b
    ensures RefOf(a) != RefOf(b)
  {
    assert RefOf(a)[11..] == a && RefOf(b)[11..] == b;
  }

  lemma {:induction false} FindLast(events: seq<Event>, e: Event, app: string, delivery: string)
    ensures FindEvent(events + [e], app, delivery)
         == if FindEvent(events, app, delivery).Some? then FindEvent(events, app, delivery)
            else if e.app == app && e.delivery == delivery then Some(e) else None
  {
    if events != [] {
      assert (events + [e])[1..] == events[1..] + [e];
      FindLast(events[1..], e, app, delivery);
    }
  }

  lemma {:induction false} PollIsGood(log: seq<Record>, ops: seq<Op>, op: Op, s: State, r: Repo,
                                      heads: seq<Head>, late: bool, times: seq<nat>)
    requires Good(log, ops) && |times| >= 2 * |heads|
    requires Live(Replay(log).value, r.name) == Some(r)
    requires Distinct(heads) && Agree(s, Replay(log).value, r, heads) && PassOf(op, r, heads, late)
    ensures var p := PollPlan(s, Replay(log).value.events, r, heads, late, times);
            Good(log + p.records, ops + Same(op, |p.records|))
    decreases |heads|
  {
    var now := Replay(log).value;
    hide Good, Replay, Apply, Skipped, Baseline, Queue, MovedEvent, SeenNow, Live, StepOk;
    var p := PollPlan(s, now.events, r, heads, late, times);
    if heads == [] || p.records == [] {
      assert log + p.records == log && ops + Same(op, |p.records|) == ops;
    } else {
      var h := heads[0];
      var rest, later := heads[1..], times[2..];
      assert Agree(s, now, r, rest);
      if Skipped(s, r, h) {
        PollIsGood(log, ops, op, s, r, rest, late, later);
      } else {
        var seen := SeenNow(r, h, times[1]);
        var e := MovedEvent(s, r, h, late, times[0]);
        if Moved(s, r, h) && Queue(now.events, e).Held? {
          QueueThenSee(log, ops, op, s, r, heads, late, times);
          var tail := PollPlan(s, now.events + [e], r, rest, late, later).records;
          assert p.records == [Queued(e), seen] + tail;
          Two(log, ops, op, Queued(e), seen, tail);
          hide *;
          PollIsGood(log + [Queued(e)] + [seen], ops + [op] + [op], op, s, r, rest, late, later);
        } else {
          SeeOnly(log, ops, op, s, r, heads, late, times);
          var tail := PollPlan(s, now.events, r, rest, late, later).records;
          assert p.records == [seen] + tail;
          One(log, ops, op, seen, tail);
          hide *;
          PollIsGood(log + [seen], ops + [op], op, s, r, rest, late, later);
        }
      }
    }
  }

  lemma One<T, U>(log: seq<T>, ops: seq<U>, f: U, a: T, tail: seq<T>)
    ensures log + [a] + tail == log + ([a] + tail)
    ensures ops + [f] + Same(f, |tail|) == ops + Same(f, |[a] + tail|)
  {
  }

  lemma Two<T, U>(log: seq<T>, ops: seq<U>, f: U, a: T, b: T, tail: seq<T>)
    ensures log + [a] + [b] + tail == log + ([a, b] + tail)
    ensures ops + [f] + [f] + Same(f, |tail|) == ops + Same(f, |[a, b] + tail|)
  {
  }

  lemma DuplicateIsQueued(s: State, now: State, r: Repo, h: Head, late: bool, t: nat)
    requires Queue(now.events, MovedEvent(s, r, h, late, t)).Duplicate? && now.retired == s.retired
    ensures QueuedFor(now, r, h.commit)
  {
    hide FindEvent, PollDelivery, Incarnation, DeliveryOk;
  }

  /** A head that was not known, or whose event is already queued. */
  lemma SeeOnly(log: seq<Record>, ops: seq<Op>, op: Op, s: State, r: Repo, heads: seq<Head>,
                late: bool, times: seq<nat>)
    requires Good(log, ops) && |times| >= 2 * |heads| && heads != []
    requires Live(Replay(log).value, r.name) == Some(r)
    requires Distinct(heads) && Agree(s, Replay(log).value, r, heads) && PassOf(op, r, heads, late)
    requires !Skipped(s, r, heads[0])
    requires Moved(s, r, heads[0]) ==>
               Queue(Replay(log).value.events, MovedEvent(s, r, heads[0], late, times[0])).Duplicate?
    ensures var now, seen := Replay(log).value, SeenNow(r, heads[0], times[1]);
            && Good(log + [seen], ops + [op])
            && var next := Replay(log + [seen]).value;
               Agree(s, next, r, heads[1..]) && next.events == now.events && Live(next, r.name) == Some(r)
  {
    var now, seen := Replay(log).value, SeenNow(r, heads[0], times[1]);
    SeenAgrees(s, now, r, heads, times[1]);
    assert heads[0] in heads;
    if Moved(s, r, heads[0]) {
      DuplicateIsQueued(s, now, r, heads[0], late, times[0]);
    }
    SeeIsOk(Apart(log), op, s, now, r, heads[0], times[1]);
    hide Apply, StepOk, Replay, Agree;
    GoodOne(log, ops, seen, op);
  }

  /** A head that moved: its event first, and only then its observation. */
  lemma QueueThenSee(log: seq<Record>, ops: seq<Op>, op: Op, s: State, r: Repo, heads: seq<Head>,
                     late: bool, times: seq<nat>)
    requires Good(log, ops) && |times| >= 2 * |heads| && heads != []
    requires Live(Replay(log).value, r.name) == Some(r)
    requires Distinct(heads) && Agree(s, Replay(log).value, r, heads) && PassOf(op, r, heads, late)
    requires Moved(s, r, heads[0])
    requires Queue(Replay(log).value.events, MovedEvent(s, r, heads[0], late, times[0])).Held?
    ensures var now, e := Replay(log).value, MovedEvent(s, r, heads[0], late, times[0]);
            var seen := SeenNow(r, heads[0], times[1]);
            && Queue(now.events, e) == Held(e)
            && Good(log + [Queued(e)] + [seen], ops + [op] + [op])
            && var next := Replay(log + [Queued(e)] + [seen]).value;
               Agree(s, next, r, heads[1..]) && next.events == now.events + [e] && Live(next, r.name) == Some(r)
  {
    var now, e, seen := Replay(log).value, MovedEvent(s, r, heads[0], late, times[0]), SeenNow(r, heads[0], times[1]);
    var mid := now.(events := now.events + [e]);
    assert heads[0] in heads;
    QueueIsOk(Apart(log), op, s, now, r, heads[0], late, times[0]);
    SeeIsOk(Apart(log + [Queued(e)]), op, s, mid, r, heads[0], times[1]);
    assert Agree(s, mid, r, heads);
    SeenAgrees(s, mid, r, heads, times[1]);
    hide *;
    GoodOne(log, ops, Queued(e), op);
    GoodOne(log + [Queued(e)], ops + [op], seen, op);
  }

  lemma QueueIsOk(told: bool, op: Op, s: State, now: State, r: Repo, h: Head, late: bool, t: nat)
    requires op.Poll? && op.repo == r && op.late == late && h in op.heads
    requires Moved(s, r, h) && Live(now, r.name) == Some(r) && now.retired == s.retired
    requires Queue(now.events, MovedEvent(s, r, h, late, t)).Held?
    ensures var e := MovedEvent(s, r, h, late, t);
            var mid := now.(events := now.events + [e]);
            && Queue(now.events, e) == Held(e) && Apply(now, Queued(e)) == Some(mid)
            && StepOk(told, now, Queued(e), op) && Live(mid, r.name) == Some(r)
            && QueuedFor(mid, r, h.commit)
  {
    var e := MovedEvent(s, r, h, late, t);
    FindLast(now.events, e, e.app, e.delivery);
    hide FindEvent, PollDelivery, Incarnation, DeliveryOk, WantsBranch, Baseline;
    assert IsMoved(now, r, late, h, e);
  }

  lemma SeeIsOk(told: bool, op: Op, s: State, now: State, r: Repo, h: Head, t: nat)
    requires op.Poll? && op.repo == r && h in op.heads
    requires !Skipped(s, r, h) && Live(now, r.name) == Some(r)
    requires Baseline(s, r, RefOf(h.branch)) == Baseline(now, r, RefOf(h.branch))
    requires Moved(s, r, h) ==> QueuedFor(now, r, h.commit)
    ensures StepOk(told, now, SeenNow(r, h, t), op)
  {
    hide WantsBranch, Baseline, QueuedFor;
  }

  // ---------------------------------------------------------------- every step keeps it

  ghost predicate FoundAt(log: seq<Record>, n: nat, op: Op) {
    n <= |log| && Replays(log[..n]) && Found(Replay(log[..n]).value, op)
  }

  /** The journal with what the holder of the lock is about to append. */
  function Whole(w: World): seq<Record> {
    w.log + w.todo
  }

  function WholeOps(w: World): seq<Op> {
    w.ops + (if w.holder.Some? then Same(w.holder.value, |w.todo|) else [])
  }

  ghost predicate Inv(strict: bool, w: World) {
    && Good(Whole(w), WholeOps(w))
    && (strict ==> Stamped(Whole(w), w.clock))
    && (w.holder.None? ==> w.todo == [])
    && |w.ops| == |w.log|
    && forall op <- w.started :: exists n :: FoundAt(w.log, n, op)
  }

  /** Every plan keeps the journal good. */
  lemma PlanIsGood(strict: bool, w: World, op: Op, newId: string, skip: nat, times: seq<nat>, n: nat)
    requires Good(w.log, w.ops)
    requires Enabled(strict, w, Lock(op, newId, skip, times)) && FoundAt(w.log, n, op)
    ensures var p := Plan(Replay(w.log).value, op, newId, skip, times);
            Good(w.log + p, w.ops + Same(op, |p|))
  {
    var s := Replay(w.log).value;
    var p := Plan(s, op, newId, skip, times);
    if op.Poll? && p != [] {
      PollIsGood(w.log, w.ops, op, s, op.repo, op.heads, op.late, times);
    } else {
      if p != [] {
        OneIsOk(strict, w, op, newId, skip, times, n);
      }
      hide Replay, Apply, StepOk, Plan, Good, Enabled, FoundAt, Stamped;
      ListIsGood(w.log, w.ops, p, op);
    }
  }

  lemma ListIsGood(log: seq<Record>, ops: seq<Op>, p: seq<Record>, f: Op)
    requires Good(log, ops) && |p| <= 1
    requires p != [] ==> Apply(Replay(log).value, p[0]).Some? && StepOk(Apart(log), Replay(log).value, p[0], f)
    ensures Good(log + p, ops + Same(f, |p|))
  {
    hide Good, StepOk, Apply;
    if p == [] {
      assert log + p == log && ops + Same(f, 0) == ops;
    } else {
      GoodOne(log, ops, p[0], f);
      assert p == [p[0]] && Same(f, 1) == [f];
    }
  }

  lemma OneIsOk(strict: bool, w: World, op: Op, newId: string, skip: nat, times: seq<nat>, n: nat)
    requires Good(w.log, w.ops)
    requires Enabled(strict, w, Lock(op, newId, skip, times)) && FoundAt(w.log, n, op) && !op.Poll?
    ensures var p := Plan(Replay(w.log).value, op, newId, skip, times);
            |p| <= 1 && (p != [] ==> Apply(Replay(w.log).value, p[0]).Some?
                                     && StepOk(Apart(w.log), Replay(w.log).value, p[0], op))
  {
    var s, told := Replay(w.log).value, Apart(w.log);
    hide Replay, Apart, Good, Apply, StepOk, AddPlan, UpdatePlan, SourcePlan, SavePlan, RemovePlan, DeliverPlan;
    match op
    case Add(_, _, _, _) => AddIsOk(told, s, op, newId, times[0]);
    case Update(current, edited) => UpdateIsOk(w.log, w.ops, n, current, edited, times[0]);
    case Run(_, _, _, _, _) => RunIsOk(told, s, op, newId, times[0]);
    case Remove(_) => RemoveIsOk(told, s, op, times[0]);
    case Save(_, _) => SaveIsOk(told, s, op, skip);
    case Deliver(_, _, _, _, _) => DeliverIsOk(told, s, op, times[0]);
  }

  lemma {:induction false} PollRegistersNothing(s: State, events: seq<Event>, r: Repo, heads: seq<Head>, late: bool,
                                                times: seq<nat>)
    requires |times| >= 2 * |heads|
    ensures var p := PollPlan(s, events, r, heads, late, times).records;
            forall x <- p :: x.Queued? || x.Observed?
    decreases |heads|
  {
    hide Skipped, Moved;
    if heads != [] {
      PollRegistersNothing(s, events, r, heads[1..], late, times[2..]);
      PollRegistersNothing(s, events + [MovedEvent(s, r, heads[0], late, times[0])], r, heads[1..], late, times[2..]);
    }
  }

  lemma {:induction false} LastTime(times: seq<nat>, after: nat)
    requires times != [] && Increasing(times, after)
    ensures after < times[0] <= times[|times| - 1]
    decreases |times|
  {
    if |times| > 1 {
      var init := times[..|times| - 1];
      assert forall i :: 0 <= i < |init| ==> init[i] == times[i];
      LastTime(init, after);
    }
  }

  /** What a plan registers, it registers alone and at the time `t`. */
  predicate RegistersAt(p: seq<Record>, t: nat) {
    forall x <- p :: x.Registered? ==> p == [x] && x.repo.at == t
  }

  lemma ListedRegisters(r: Option<Record>, t: nat)
    requires r.Some? && r.value.Registered? ==> r.value.repo.at == t
    ensures RegistersAt(Listed(r), t)
  {
  }

  lemma PlanRegisters(w: World, op: Op, newId: string, skip: nat, times: seq<nat>)
    requires Stamped(w.log, w.clock) && Replays(w.log) && |times| == Readings(op) && times[0] > w.clock
    ensures RegistersAt(Plan(Replay(w.log).value, op, newId, skip, times), times[0])
  {
    var s := Replay(w.log).value;
    var t := times[0];
    match op
    case Add(asked, requested, createOnly, confirmed) =>
      hide Replay, Apply, GuardClaim, GuardDestination, GuardIdentity, RegistersAt;
      ListedRegisters(AddPlan(s, asked, requested, createOnly, confirmed, newId, t), t);
    case Update(current, edited) =>
      if Live(s, current.name) == Some(current) {
        var i := LiveWasRegistered(w.log, current.name);
      }
      hide Replay, Apply, RegistersAt;
      ListedRegisters(UpdatePlan(s, current, edited, t), t);
    case Run(r, sel, commit, trigger, delivery) =>
      hide Replay, RegistersAt;
      ListedRegisters(SourcePlan(s, r, newId, sel, commit, trigger, delivery, t), t);
    case Poll(r, heads, late) =>
      PollRegistersNothing(s, s.events, r, heads, late, times);
      var found := PollPlan(s, s.events, r, heads, late, times).records;
      assert forall x <- found :: x.Queued? || x.Observed?;
      assert forall x <- found :: !x.Registered?;
      assert RegistersAt(found, t) && RegistersAt([], t);
    case Remove(shown) =>
      hide Replay, Apply, RegistersAt;
      ListedRegisters(RemovePlan(s, shown, t), t);
    case Save(name, what) =>
      hide Replay, RegistersAt;
      ListedRegisters(SavePlan(s, name, what, skip), t);
    case Deliver(name, branch, delivery, source, revision) =>
      hide Replay, RegistersAt;
      ListedRegisters(DeliverPlan(s, name, branch, delivery, source, revision, t), t);
  }

  lemma PlanIsStamped(w: World, op: Op, newId: string, skip: nat, times: seq<nat>)
    requires Stamped(w.log, w.clock) && Replays(w.log) && |times| == Readings(op) && Increasing(times, w.clock)
    ensures Stamped(w.log + Plan(Replay(w.log).value, op, newId, skip, times), times[|times| - 1])
  {
    LastTime(times, w.clock);
    PlanRegisters(w, op, newId, skip, times);
    hide Plan, Replay, Increasing;
    var p := Plan(Replay(w.log).value, op, newId, skip, times);
    assert forall i :: |w.log| <= i < |w.log + p| ==> (w.log + p)[i] in p;
  }

  lemma StartKeeps(strict: bool, w: World, op: Op)
    requires Inv(strict, w) && Enabled(strict, w, Start(op))
    ensures Inv(strict, Next(strict, w, Start(op)))
  {
    var v := Next(strict, w, Start(op));
    assert w.log[..|w.log|] == w.log;
    assert FoundAt(v.log, |w.log|, op);
    hide Found, Replay, Good, Stamped;
    assert Whole(v) == Whole(w) && WholeOps(v) == WholeOps(w);
  }

  lemma LockKeeps(strict: bool, w: World, op: Op, newId: string, skip: nat, times: seq<nat>)
    requires Inv(strict, w) && Enabled(strict, w, Lock(op, newId, skip, times))
    ensures Inv(strict, Next(strict, w, Lock(op, newId, skip, times)))
  {
    hide Replay, Good, Stamped, FoundAt, Increasing, Readings, Plan;
    assert Whole(w) == w.log && WholeOps(w) == w.ops;
    var n :| FoundAt(w.log, n, op);
    PlanIsGood(strict, w, op, newId, skip, times, n);
    if strict {
      PlanIsStamped(w, op, newId, skip, times);
    }
    var v := Next(strict, w, Lock(op, newId, skip, times));
    assert v.log == w.log && v.ops == w.ops && v.started == w.started;
  }

  lemma FoundLater(log: seq<Record>, r: Record, n: nat, op: Op)
    requires FoundAt(log, n, op)
    ensures FoundAt(log + [r], n, op)
  {
    assert (log + [r])[..n] == log[..n];
  }

  lemma AppendKeeps(strict: bool, w: World)
    requires Inv(strict, w) && Enabled(strict, w, Append)
    ensures Inv(strict, Next(strict, w, Append))
  {
    var v := Next(strict, w, Append);
    SameWhole(w, v);
    hide Good, Stamped, FoundAt, Whole, WholeOps;
    forall op | op in v.started ensures exists n :: FoundAt(v.log, n, op) {
      var n :| FoundAt(w.log, n, op);
      FoundLater(w.log, w.todo[0], n, op);
    }
  }

  lemma SameWhole(w: World, v: World)
    requires w.todo != [] && w.holder.Some? && v.holder == w.holder
    requires v.log == w.log + [w.todo[0]] && v.todo == w.todo[1..]
    requires v.ops == w.ops + [w.holder.value]
    ensures Whole(v) == Whole(w) && WholeOps(v) == WholeOps(w)
  {
  }

  lemma ReleaseKeeps(strict: bool, w: World)
    requires Inv(strict, w) && Enabled(strict, w, Release)
    ensures Inv(strict, Next(strict, w, Release))
  {
    var v := Next(strict, w, Release);
    assert Whole(v)[..|w.log|] == w.log && Whole(w)[..|w.log|] == w.log;
    assert WholeOps(w)[..|w.log|] == w.ops && v.holder.None?;
    assert Whole(v) == w.log && WholeOps(v) == w.ops;
    GoodPrefix(Whole(w), WholeOps(w), |w.log|);
    if strict {
      StampedPrefix(Whole(w), w.clock, |w.log|);
    }
    hide Good, FoundAt, Stamped, Whole, WholeOps;
  }

  lemma StampedPrefix(log: seq<Record>, clock: nat, n: nat)
    requires Stamped(log, clock) && n <= |log|
    ensures Stamped(log[..n], clock)
  {
  }

  lemma {:induction false} RunKeeps(strict: bool, steps: seq<Step>)
    ensures Inv(strict, After(strict, steps))
  {
    if steps == [] {
      assert Replay([]) == Some(EMPTY);
    } else {
      var w, e := After(strict, steps[..|steps| - 1]), steps[|steps| - 1];
      RunKeeps(strict, steps[..|steps| - 1]);
      assert After(strict, steps) == Next(strict, w, e);
      hide Inv, After, Enabled;
      if Enabled(strict, w, e) {
        match e
        case Start(op) => StartKeeps(strict, w, op);
        case Lock(op, newId, skip, times) => LockKeeps(strict, w, op, newId, skip, times);
        case Append => AppendKeeps(strict, w);
        case Release => ReleaseKeeps(strict, w);
      }
    }
  }
}
