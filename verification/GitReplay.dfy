/**
  What a replay of the journal gives, said of its records: the latest registration that no removal follows, the latest
  observation of a ref since then, and everything else in order; and which records a replay refuses.
 */
module GitReplay {
  import opened Bytes
  import opened Destinations
  import opened GitRegistry
  import opened GitRuns
  import opened Wildcards

  // ---------------------------------------------------------------- what counts last

  /** The record registers or removes the name. */
  predicate Settles(r: Record, name: string) {
    (r.Registered? && r.repo.name == name) || (r.Dropped? && r.removed.name == name)
  }

  /** Record `i` is the last one that registers or removes the name. */
  ghost predicate LastSettles(log: seq<Record>, name: string, i: int) {
    0 <= i < |log| && Settles(log[i], name) && forall j :: i < j < |log| ==> !Settles(log[j], name)
  }

  /** The record observes the ref, or removes the name, after which nothing was observed. */
  predicate Sees(r: Record, name: string, refName: string) {
    (r.Observed? && r.seen.repo == name && r.seen.refName == refName) || (r.Dropped? && r.removed.name == name)
  }

  ghost predicate LastSees(log: seq<Record>, name: string, refName: string, i: int) {
    0 <= i < |log| && Sees(log[i], name, refName) && forall j :: i < j < |log| ==> !Sees(log[j], name, refName)
  }

  /** A registration is live exactly when its record is the last one about its name. */
  lemma {:induction false} LiveIff(log: seq<Record>, name: string, r: Repo)
    requires Replays(log)
    ensures Live(Replay(log).value, name) == Some(r) <==>
            exists i :: LastSettles(log, name, i) && log[i] == Registered(r)
    decreases |log|
  {
    if log != [] {
      var k := |log| - 1;
      ReplayLast(log);
      LiveIff(log[..k], name, r);
      LiveNext(Replay(log[..k]).value, log[k], name);
      hide Apply, Replay, Live;
      if Settles(log[k], name) {
        assert LastSettles(log, name, k);
      } else {
        forall i ensures LastSettles(log, name, i) <==> LastSettles(log[..k], name, i) {
          LastStays(log, name, i);
        }
      }
    }
  }

  lemma LastStays(log: seq<Record>, name: string, i: int)
    requires log != [] && !Settles(log[|log| - 1], name)
    ensures LastSettles(log, name, i) <==> LastSettles(log[..|log| - 1], name, i)
  {
    var front := log[..|log| - 1];
    assert forall j :: 0 <= j < |front| ==> front[j] == log[j];
  }

  lemma LiveNext(s: State, r: Record, name: string)
    requires Apply(s, r).Some?
    ensures var t := Apply(s, r).value;
            Live(t, name) == if !Settles(r, name) then Live(s, name)
                             else if r.Registered? then Some(r.repo) else None
  {
    hide RetiredOwner, FindEvent;
  }

  /** What a ref was last seen at, in this registration of its name or an earlier one that was only edited. */
  function LastSeen(s: State, name: string, refName: string): Option<Seen> {
    if (name, refName) in s.seen then Some(s.seen[(name, refName)]) else None
  }

  lemma SeenNext(s: State, r: Record, name: string, refName: string)
    requires Apply(s, r).Some?
    ensures var t := Apply(s, r).value;
            LastSeen(t, name, refName) == if !Sees(r, name, refName) then LastSeen(s, name, refName)
                                          else if r.Observed? then Some(r.seen) else None
  {
    hide RetiredOwner, FindEvent;
  }

  lemma SeenStays(log: seq<Record>, name: string, refName: string, i: int)
    requires log != [] && !Sees(log[|log| - 1], name, refName)
    ensures LastSees(log, name, refName, i) <==> LastSees(log[..|log| - 1], name, refName, i)
  {
    var front := log[..|log| - 1];
    assert forall j :: 0 <= j < |front| ==> front[j] == log[j];
  }

  lemma {:induction false} SeenIff(log: seq<Record>, name: string, refName: string, x: Seen)
    requires Replays(log)
    ensures LastSeen(Replay(log).value, name, refName) == Some(x) <==>
            exists i :: LastSees(log, name, refName, i) && log[i] == Observed(x)
    decreases |log|
  {
    if log != [] {
      var k := |log| - 1;
      ReplayLast(log);
      SeenIff(log[..k], name, refName, x);
      SeenNext(Replay(log[..k]).value, log[k], name, refName);
      hide Apply, Replay, LastSeen;
      if Sees(log[k], name, refName) {
        assert LastSees(log, name, refName, k);
      } else {
        forall i ensures LastSees(log, name, refName, i) <==> LastSees(log[..k], name, refName, i) {
          SeenStays(log, name, refName, i);
        }
      }
    }
  }

  /**
    The baseline that a poll compares a head with is the latest observation of its ref since the name was last removed,
    if it is no older than the registration as it is now.
   */
  lemma BaselineIff(log: seq<Record>, r: Repo, refName: string, commit: string)
    requires Replays(log)
    ensures Baseline(Replay(log).value, r, refName) == Some(commit) <==>
            exists i :: && LastSees(log, r.name, refName, i) && log[i].Observed?
                        && log[i].seen.commit == commit && log[i].seen.at >= r.at
  {
    var s := Replay(log).value;
    hide Replay;
    match LastSeen(s, r.name, refName)
    case Some(x) =>
      SeenIff(log, r.name, refName, x);
      var i :| LastSees(log, r.name, refName, i) && log[i] == Observed(x);
      forall j | LastSees(log, r.name, refName, j) ensures j == i { }
    case None =>
      forall i | LastSees(log, r.name, refName, i) && log[i].Observed? ensures false {
        SeenIff(log, r.name, refName, log[i].seen);
      }
  }

  // ---------------------------------------------------------------- what is kept in order

  function Sources(log: seq<Record>): seq<Source> {
    if log == [] then []
    else
      var r := log[|log| - 1];
      Sources(log[..|log| - 1]) + if r.Sourced? then [r.source] else []
  }

  function Removals(log: seq<Record>): seq<Removed> {
    if log == [] then []
    else
      var r := log[|log| - 1];
      Removals(log[..|log| - 1]) + if r.Dropped? then [r.removed] else []
  }

  function Events(log: seq<Record>): seq<Event> {
    if log == [] then []
    else
      var r := log[|log| - 1];
      Events(log[..|log| - 1]) + if r.Queued? then [r.event] else []
  }

  /** The latest version saved under an id. */
  function Version(log: seq<Record>, id: string): nat {
    if log == [] then 0
    else
      var r := log[|log| - 1];
      if r.Saved? && r.id == id then r.version else Version(log[..|log| - 1], id)
  }

  /** Deployments, removals and events are kept as they came, and of each secret its latest version. */
  lemma {:induction false} KeptInOrder(log: seq<Record>, id: string)
    requires Replays(log)
    ensures var s := Replay(log).value;
            && s.sources == Sources(log) && s.retired == Removals(log) && s.events == Events(log)
            && (if id in s.versions then s.versions[id] else 0) == Version(log, id)
    decreases |log|
  {
    if log != [] {
      var k := |log| - 1;
      ReplayLast(log);
      KeptInOrder(log[..k], id);
      OrderNext(Replay(log[..k]).value, log[k], id);
      hide Apply, Replay;
    }
  }

  lemma OrderNext(s: State, r: Record, id: string)
    requires Apply(s, r).Some?
    ensures var t := Apply(s, r).value;
            && t.sources == s.sources + (if r.Sourced? then [r.source] else [])
            && t.retired == s.retired + (if r.Dropped? then [r.removed] else [])
            && t.events == s.events + (if r.Queued? then [r.event] else [])
            && (if id in t.versions then t.versions[id] else 0)
               == if r.Saved? && r.id == id then r.version else if id in s.versions then s.versions[id] else 0
  {
    hide RetiredOwner, FindEvent;
    assert s.sources + [] == s.sources && s.retired + [] == s.retired && s.events + [] == s.events;
  }

  // ---------------------------------------------------------------- what replay refuses

  lemma {:induction false} FindIff(events: seq<Event>, app: string, delivery: string)
    ensures FindEvent(events, app, delivery).None? <==>
            forall i :: 0 <= i < |events| ==> !(events[i].app == app && events[i].delivery == delivery)
    decreases |events|
  {
    if events != [] {
      FindIff(events[1..], app, delivery);
      assert forall i :: 0 < i < |events| ==> events[i] == events[1..][i - 1];
    }
  }

  /**
    A removal must be of the registration as it is, in every respect it names; an observation or a deployment of a
    name that is registered; a deployment, an event and a version must be new.
   */
  lemma AppliesIff(s: State, r: Record)
    requires !r.Registered?
    ensures Apply(s, r).Some? <==>
            match r
            case Dropped(x) =>
              var live := Live(s, x.name);
              live.Some? && (live.value.app, live.value.at, live.value.url, live.value.cred)
                            == (x.app, x.registration, x.url, x.cred)
            case Observed(x) => Live(s, x.repo).Some?
            case Sourced(x) =>
              Live(s, x.repo).Some? && forall i :: 0 <= i < |s.sources| ==> s.sources[i].deployment != x.deployment
            case Saved(id, version) => version > 0 && (id in s.versions ==> version > s.versions[id])
            case Queued(e) =>
              forall i :: 0 <= i < |s.events| ==> !(s.events[i].app == e.app && s.events[i].delivery == e.delivery)
            case Registered(_) => true
  {
    if r.Queued? { FindIff(s.events, r.event.app, r.event.delivery); }
    hide RetiredOwner, FindEvent;
  }

  // ---------------------------------------------------------------- which branches are wanted

  /** The registered branch, or any that one of the filters means. (No branch's name has a star in it.) */
  lemma WantedIff(r: Repo, branch: string)
    requires '*' !in branch
    ensures WantsBranch(r, branch) <==>
            if r.filters == [] then branch == r.branch else exists f <- r.filters :: Means(CharFits(), f, branch)
  {
    FilterIsItsMeaningIff(branch);
    hide Means, GlobMatch;
    if f :| f in r.filters && Means(CharFits(), f, branch) {
      var i :| 0 <= i < |r.filters| && r.filters[i] == f;
      assert GlobMatch(r.filters[i], branch);
    }
    if i :| 0 <= i < |r.filters| && GlobMatch(r.filters[i], branch) {
      assert r.filters[i] in r.filters;
    }
  }

  // ---------------------------------------------------------------- incarnations and places

  /** Every removal of an application begins another incarnation, and nothing else does. */
  lemma {:induction false} IncarnationGrows(retired: seq<Removed>, x: Removed, app: string)
    ensures Incarnation(retired + [x], app) == Incarnation(retired, app) + if x.app == app then 1 else 0
    ensures Incarnation([], app) == 0
  {
    if retired == [] {
      assert [] + [x] == [x] && [x][1..] == [];
    } else {
      IncarnationGrows(retired[1..], x, app);
      assert (retired + [x])[1..] == retired[1..] + [x];
    }
  }

  /** Two addresses are the same place when they are one text, or both are readable and lead to one place. */
  lemma SamePlaceIff(a: string, b: string)
    ensures SamePlace(a, b) <==>
            || a == b
            || exists x: Address, y: Address ::
                 && GoodAddress(x) && AddressText(x) == a && GoodAddress(y) && AddressText(y) == b
                 && PlaceOf(x) == PlaceOf(y)
  {
    hide Destination, GoodAddress, AddressText, PlaceOf;
    if a != b && SamePlace(a, b) {
      var place := Destination(a).value;
      DestinationIff(a, place);
      DestinationIff(b, place);
    }
    if x: Address, y: Address :|
         && GoodAddress(x) && AddressText(x) == a && GoodAddress(y) && AddressText(y) == b
         && PlaceOf(x) == PlaceOf(y) {
      DestinationIff(a, PlaceOf(x));
      DestinationIff(b, PlaceOf(x));
    }
  }
}
