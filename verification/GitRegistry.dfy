/**
  The registration records of the deployment journal and what each command of deploy-cli/src/git_cmds.rs may append
  to them while it holds the writer lock. The commands that look before they take the lock are put together with
  these decisions in `GitRuns`.
 */
module GitRegistry {
  import opened Bytes
  import opened Characters
  import opened Wildcards
  import opened Destinations

  datatype Cred = NoCred | Token | SshKey

  /** The deployment settings of a registration that no rule here looks at. */
  datatype Settings = Settings(
    username: Option<string>, knownHost: Option<string>, webhook: Option<string>, project: Option<string>,
    environment: Option<string>, port: nat, dockerfile: Option<string>, context: Option<string>,
    target: Option<string>, healthPath: Option<string>)

  datatype Repo = Repo(name: string, url: string, cred: Cred, app: string, branch: string, filters: seq<string>,
                       settings: Settings, at: nat)

  datatype Seen = Seen(repo: string, refName: string, commit: string, at: nat)

  /** What a deployment asks for: the head of a branch, a tag, or one commit. */
  datatype Selector = Branch(name: string) | Tag(name: string) | Commit(id: string)

  datatype SelectorKind = BranchKind | TagKind | CommitKind

  datatype Source = Source(deployment: string, repo: string, url: string, selector: SelectorKind, requested: string,
                           commit: string, trigger: string, delivery: Option<string>, at: nat)

  datatype Removed = Removed(name: string, app: string, registration: nat, url: string, cred: Cred, at: nat)

  datatype Event = Event(app: string, delivery: string, source: string, revision: string, received: nat)

  datatype Record =
    | Registered(repo: Repo)
    | Observed(seen: Seen)
    | Sourced(source: Source)
    | Dropped(removed: Removed)
    | Saved(id: string, version: nat)
    | Queued(event: Event)

  datatype State = State(
    repos: map<string, Repo>,
    seen: map<(string, string), Seen>,
    sources: seq<Source>,
    retired: seq<Removed>,
    versions: map<string, nat>,
    events: seq<Event>)

  const EMPTY := State(map[], map[], [], [], map[], [])

  // ---------------------------------------------------------------- what the removals say

  /** The first removal of an application names the one repository that may claim it again. */
  function RetiredOwner(retired: seq<Removed>, app: string): Option<string> {
    if retired == [] then None
    else if retired[0].app == app then Some(retired[0].name)
    else RetiredOwner(retired[1..], app)
  }

  /** The latest removal of a name. */
  function RetiredName(retired: seq<Removed>, name: string): Option<Removed> {
    if retired == [] then None
    else
      var last := retired[|retired| - 1];
      if last.name == name then Some(last) else RetiredName(retired[..|retired| - 1], name)
  }

  /** How often an application's registration was removed. */
  function Incarnation(retired: seq<Removed>, app: string): nat {
    if retired == [] then 0
    else Incarnation(retired[1..], app) + if retired[0].app == app then 1 else 0
  }

  function FindEvent(events: seq<Event>, app: string, delivery: string): Option<Event> {
    if events == [] then None
    else if events[0].app == app && events[0].delivery == delivery then Some(events[0])
    else FindEvent(events[1..], app, delivery)
  }

  // ---------------------------------------------------------------- replay

  /** One record on top of a state, or `None` when replay refuses it. */
  function Apply(s: State, r: Record): Option<State> {
    match r
    case Registered(x) =>
      if exists n <- s.repos :: n != x.name && s.repos[n].app == x.app then None
      else if RetiredOwner(s.retired, x.app).Some? && RetiredOwner(s.retired, x.app).value != x.name then None
      else Some(s.(repos := s.repos[x.name := x]))
    case Dropped(x) =>
      if x.name !in s.repos then None
      else
        var live := s.repos[x.name];
        if live.app != x.app || live.at != x.registration || live.url != x.url || live.cred != x.cred then None
        else Some(s.(repos := s.repos - {x.name},
                     seen := map k <- s.seen | k.0 != x.name :: s.seen[k],
                     retired := s.retired + [x]))
    case Observed(x) =>
      if x.repo !in s.repos then None else Some(s.(seen := s.seen[(x.repo, x.refName) := x]))
    case Sourced(x) =>
      if exists i | 0 <= i < |s.sources| :: s.sources[i].deployment == x.deployment then None
      else if x.repo !in s.repos then None
      else Some(s.(sources := s.sources + [x]))
    case Saved(id, version) =>
      if version <= (if id in s.versions then s.versions[id] else 0) then None
      else Some(s.(versions := s.versions[id := version]))
    case Queued(e) =>
      if FindEvent(s.events, e.app, e.delivery).Some? then None else Some(s.(events := s.events + [e]))
  }

  function Replay(log: seq<Record>): Option<State> {
    if log == [] then Some(EMPTY)
    else
      match Replay(log[..|log| - 1])
      case None => None
      case Some(s) => Apply(s, log[|log| - 1])
  }

  predicate Replays(log: seq<Record>) {
    Replay(log).Some?
  }

  /** The registration of `name`, if there is one. */
  function Live(s: State, name: string): Option<Repo> {
    if name in s.repos then Some(s.repos[name]) else None
  }

  // ---------------------------------------------------------------- credentials

  function SecretId(name: string, what: string): string {
    "git/" + name + "/" + what
  }

  function CredentialId(name: string): string {
    SecretId(name, "credential")
  }

  /** What the saved credential of a name was issued for: the live address, or the one last removed. */
  function Anchor(s: State, name: string): Option<(string, Cred)> {
    match Live(s, name)
    case Some(r) => Some((r.url, r.cred))
    case None =>
      match RetiredName(s.retired, name)
      case Some(gone) => Some((gone.url, gone.cred))
      case None => None
  }

  /** The same address, or two addresses that can both be read and lead to the same place. */
  predicate SamePlace(a: string, b: string) {
    a == b || (Destination(a).Some? && Destination(a) == Destination(b))
  }

  predicate GuardDestination(s: State, name: string, url: string) {
    match Anchor(s, name)
    case Some((was, cred)) =>
      (was != url && (cred != NoCred || CredentialId(name) in s.versions)) ==> SamePlace(was, url)
    case None => true
  }

  predicate GuardIdentity(s: State, name: string, requested: Option<string>) {
    Live(s, name).Some? && requested.Some? ==> requested.value == Live(s, name).value.app
  }

  predicate GuardClaim(s: State, name: string, requested: Option<string>, confirmed: bool) {
    requested.Some? && RetiredOwner(s.retired, requested.value).Some? ==>
      && RetiredOwner(s.retired, requested.value).value == name
      && (name in s.repos || confirmed)
  }

  // ---------------------------------------------------------------- queueing an event

  const MAX_TOKEN := 128

  predicate TokenChar(c: char) {
    || 'a' <= c <= 'z' || 'A' <= c <= 'Z' || '0' <= c <= '9' || c == '.' || c == '_' || c == '-'
  }

  predicate DeliveryOk(d: string) {
    0 < |d| <= MAX_TOKEN && forall i | 0 <= i < |d| :: TokenChar(d[i]) || d[i] == ':'
  }

  datatype Ingress = Held(event: Event) | Duplicate | Conflict | Invalid

  function Queue(events: seq<Event>, e: Event): Ingress {
    if !DeliveryOk(e.delivery) then Invalid
    else
      match FindEvent(events, e.app, e.delivery)
      case Some(had) => if had.source == e.source && had.revision == e.revision then Duplicate else Conflict
      case None => Held(e)
  }

  /** The delivery id of a commit a poll found, in the given incarnation of the registration. */
  function PollDelivery(name: string, incarnation: nat, commit: string): string {
    "poll:" + name + ":" + (if incarnation == 0 then "" else "r" + Digits(incarnation) + ":") + commit
  }

  function PollSource(late: bool): string {
    if late then "poll-late" else "poll"
  }

  // ---------------------------------------------------------------- one poll pass, under the lock

  predicate WantsBranch(r: Repo, branch: string) {
    if r.filters == [] then branch == r.branch else exists i | 0 <= i < |r.filters| :: GlobMatch(r.filters[i], branch)
  }

  /** The commit a ref was last seen at under the registration as it is now. */
  function Baseline(s: State, r: Repo, refName: string): Option<string> {
    if (r.name, refName) in s.seen && s.seen[(r.name, refName)].at >= r.at
    then Some(s.seen[(r.name, refName)].commit) else None
  }

  function RefOf(branch: string): string {
    "refs/heads/" + branch
  }

  datatype Head = Head(branch: string, commit: string)

  datatype Pass = Pass(records: seq<Record>, refused: bool)

  function Before(rs: seq<Record>, p: Pass): Pass {
    Pass(rs + p.records, p.refused)
  }

  /** The event a pass queues for a head that moved. */
  function MovedEvent(s: State, r: Repo, h: Head, late: bool, t: nat): Event {
    Event(r.app, PollDelivery(r.name, Incarnation(s.retired, r.app), h.commit), PollSource(late), h.commit, t)
  }

  predicate Skipped(s: State, r: Repo, h: Head) {
    !WantsBranch(r, h.branch) || Baseline(s, r, RefOf(h.branch)) == Some(h.commit)
  }

  predicate Moved(s: State, r: Repo, h: Head) {
    !Skipped(s, r, h) && Baseline(s, r, RefOf(h.branch)).Some?
  }

  function SeenNow(r: Repo, h: Head, t: nat): Record {
    Observed(Seen(r.name, RefOf(h.branch), h.commit, t))
  }

  /**
    What a pass appends for the heads it was given, in order: the state is the one read under the lock, and only the
    events grow while it works. The clock is read at `times[0]` for an event and at `times[1]` for its observation.
   */
  function PollPlan(s: State, events: seq<Event>, r: Repo, heads: seq<Head>, late: bool, times: seq<nat>): Pass
    requires |times| >= 2 * |heads|
    decreases |heads|
  {
    if heads == [] then Pass([], false)
    else
      var h := heads[0];
      if Skipped(s, r, h) then PollPlan(s, events, r, heads[1..], late, times[2..])
      else if !Moved(s, r, h) then
        Before([SeenNow(r, h, times[1])], PollPlan(s, events, r, heads[1..], late, times[2..]))
      else
        match Queue(events, MovedEvent(s, r, h, late, times[0]))
        case Held(e) =>
          Before([Queued(e), SeenNow(r, h, times[1])],
                 PollPlan(s, events + [e], r, heads[1..], late, times[2..]))
        case Duplicate => Before([SeenNow(r, h, times[1])], PollPlan(s, events, r, heads[1..], late, times[2..]))
        case _ => Pass([], true)
  }

  // ---------------------------------------------------------------- the other commands, under the lock

  /** `repo-add`: the application asked for, or the one the name already has, or a new one. */
  function AddPlan(s: State, asked: Repo, requested: Option<string>, createOnly: bool, confirmed: bool, newApp: string,
                   now: nat): Option<Record> {
    var name := asked.name;
    if createOnly && name in s.repos then None
    else if !GuardIdentity(s, name, requested) then None
    else if !GuardClaim(s, name, requested, confirmed) then None
    else if !GuardDestination(s, name, asked.url) then None
    else
      var app := if requested.Some? then requested.value else if name in s.repos then s.repos[name].app else newApp;
      var r := Registered(asked.(app := app, at := now));
      if Apply(s, r).Some? then Some(r) else None
  }

  /** `repo-update`: the registration is still the one that was edited. */
  function UpdatePlan(s: State, current: Repo, edited: Repo, now: nat): Option<Record> {
    if Live(s, current.name) != Some(current) then None
    else
      var r := Registered(edited.(at := if now > current.at + 1 then now else current.at + 1));
      if Apply(s, r).Some? then Some(r) else None
  }

  /** `git-deploy` and the executor, once the source is checked out. */
  function SourcePlan(s: State, r: Repo, deployment: string, sel: Selector, commit: string, trigger: string,
                      delivery: Option<string>, now: nat): Option<Record> {
    if Live(s, r.name) != Some(r) then None
    else
      var (kind, requested) := match sel
        case Branch(b) => (BranchKind, b)
        case Tag(t) => (TagKind, t)
        case Commit(_) => (CommitKind, "-");
      Some(Sourced(Source(deployment, r.name, r.url, kind, requested, commit, trigger, delivery, now)))
  }

  /** `repo-remove`: the version the person was shown, and nothing else. */
  function RemovePlan(s: State, shown: Repo, now: nat): Option<Record> {
    if Live(s, shown.name) != Some(shown) then None
    else
      var r := Dropped(Removed(shown.name, shown.app, shown.at, shown.url, shown.cred, now));
      if Apply(s, r).Some? then Some(r) else None
  }

  /** `repo-secret`: at most eight versions are skipped when the Keychain already holds them. */
  function SavePlan(s: State, name: string, what: string, skip: nat): Option<Record> {
    match Live(s, name)
    case None => None
    case Some(r) =>
      if what != "credential" && what != "webhook" then None
      else if what == "credential" && r.cred == NoCred then None
      else if what == "webhook" && r.settings.webhook.None? then None
      else if skip > 8 then None
      else
        var id := SecretId(name, what);
        Some(Saved(id, (if id in s.versions then s.versions[id] else 0) + 1 + skip))
  }

  /** A verified webhook push or a `git-trigger`. */
  function DeliverPlan(s: State, name: string, branch: string, delivery: string, source: string, revision: string,
                       now: nat): Option<Record> {
    match Live(s, name)
    case None => None
    case Some(r) =>
      if !WantsBranch(r, branch) then None
      else
        match Queue(s.events, Event(r.app, delivery, source, revision, now))
        case Held(e) => Some(Queued(e))
        case _ => None
  }
}
