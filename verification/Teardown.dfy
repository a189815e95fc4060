/**
  Taking down a succeeded deployment (deploy-cli/src/commands.rs, with deploy/src/engine.rs and deploy/src/ledger.rs):
  containers, then images, then port leases. The trace records everything the command asks of Docker and writes to
  the journal, in order; what is proved of it holds at every point where the command may stop or die.
 */
module Teardown {
  import opened Bytes
  import opened Characters

  datatype Kind = Container | Image | PortLease

  datatype Key = Key(deployment: string, kind: Kind, name: string)

  datatype EntryState = Intended | Created | CleanupFailed | CleanupConflict | Refused | Released

  datatype Entry = Entry(key: Key, app: string, id: Option<string>, retain: bool, state: EntryState, outstanding: bool)

  datatype Outcome = Removed | AlreadyAbsent | NotRemoved | Mismatched | InConflict

  /** An object Docker lists; `owner` is the application and deployment all its labels name, if they do. */
  datatype Observed = Observed(kind: Kind, id: string, name: string, owner: Option<(string, string)>)

  /** A container with the id of its image, empty when Docker does not say. */
  datatype Running = Running(name: string, imageId: string)

  datatype Event =
    | Attempt(key: Key)
    | Asked(key: Key, id: string)
    | Settle(key: Key, outcome: Outcome)
    | ListedAll(observed: seq<Observed>)
    | ListedContainers(running: seq<Running>)
    | ListedPorts(ports: set<nat>)

  type Ledger = map<Key, Entry>

  // ---------------------------------------------------------------- the ledger

  predicate IsReleased(l: Ledger, k: Key) {
    k in l && l[k].state == Released
  }

  function After(o: Outcome): EntryState {
    match o
    case Removed => Released
    case AlreadyAbsent => Released
    case NotRemoved => CleanupFailed
    case Mismatched => Refused
    case InConflict => CleanupConflict
  }

  /** A conflict is a result only of a retained image that has a receipt. */
  predicate MayConflict(e: Entry) {
    e.key.kind == Image && e.retain && e.id.Some?
  }

  function Apply(l: Ledger, e: Event): Option<Ledger> {
    match e
    case Attempt(k) =>
      if k !in l || l[k].state in {Released, Refused} then None
      else Some(l[k := l[k].(outstanding := true)])
    case Settle(k, o) =>
      if k !in l || !l[k].outstanding || (o == InConflict && !MayConflict(l[k])) then None
      else Some(l[k := l[k].(state := After(o), outstanding := false)])
    case _ => None
  }

  /** A record changes its own entry alone, and a result settles it. */
  lemma ApplyChanges(l: Ledger, e: Event, m: Ledger)
    requires (e.Attempt? || e.Settle?) && Apply(l, e) == Some(m)
    ensures e.key in l && e.key in m && (e.Settle? ==> m[e.key].state == After(e.outcome))
    ensures forall k <- l :: k != e.key ==> k in m && m[k] == l[k]
  {
  }

  /** Nothing is tried on an entry that is settled for good. */
  ghost predicate Sound(l: Ledger) {
    forall k <- l :: l[k].key == k && (l[k].state in {Released, Refused} ==> !l[k].outstanding)
  }

  // ---------------------------------------------------------------- locating an object

  datatype Located = Ours(observed: Observed) | Mismatch | Absent | NoReceipt

  function Find(observed: seq<Observed>, kind: Kind, id: string): Option<Observed> {
    if observed == [] then None
    else if observed[0].kind == kind && observed[0].id == id then Some(observed[0])
    else Find(observed[1..], kind, id)
  }

  function Locate(e: Entry, observed: seq<Observed>): Located {
    match e.id
    case None => NoReceipt
    case Some(id) =>
      match Find(observed, e.key.kind, id)
      case Some(o) =>
        if o.owner == Some((e.app, e.key.deployment)) && (e.key.kind == Image || o.name == e.key.name) then Ours(o)
        else Mismatch
      case None =>
        if e.key.kind == Container && exists i | 0 <= i < |observed| ::
             observed[i].kind == Container && observed[i].name == e.key.name
        then Mismatch else Absent
  }

  /** `located` is `Ours` only of an object with the recorded id, of the kind, and with the owner's labels. */
  lemma {:induction false} FindFinds(observed: seq<Observed>, kind: Kind, id: string)
    ensures var f := Find(observed, kind, id);
            (f.Some? ==> f.value in observed && f.value.kind == kind && f.value.id == id)
            && (f.None? ==> forall o <- observed :: !(o.kind == kind && o.id == id))
  {
    if observed != [] && !(observed[0].kind == kind && observed[0].id == id) {
      FindFinds(observed[1..], kind, id);
      assert observed == [observed[0]] + observed[1..];
    }
  }

  /** The object has the recorded id and kind. */
  predicate Bears(o: Observed, e: Entry) {
    o.kind == e.key.kind && Some(o.id) == e.id
  }

  /** The first object with the recorded id is labelled for this deployment, and a container also has its name. */
  ghost predicate ListedAsOurs(e: Entry, observed: seq<Observed>) {
    exists i :: 0 <= i < |observed| && Bears(observed[i], e) && (forall j :: 0 <= j < i ==> !Bears(observed[j], e))
      && observed[i].owner == Some((e.app, e.key.deployment))
      && (e.key.kind != Image ==> observed[i].name == e.key.name)
  }

  /** No object has the recorded id, and no other container has a container's name. */
  ghost predicate NotListed(e: Entry, observed: seq<Observed>) {
    forall o <- observed :: !Bears(o, e) && !(e.key.kind == Container && o.kind == Container && o.name == e.key.name)
  }

  lemma {:induction false} FirstBearer(observed: seq<Observed>, kind: Kind, id: string) returns (i: nat)
    requires Find(observed, kind, id).Some?
    ensures i < |observed| && observed[i] == Find(observed, kind, id).value
    ensures forall j :: 0 <= j < i ==> !(observed[j].kind == kind && observed[j].id == id)
  {
    if observed[0].kind == kind && observed[0].id == id {
      i := 0;
    } else {
      var k := FirstBearer(observed[1..], kind, id);
      i := k + 1;
      assert forall j :: 1 <= j < i ==> observed[j] == observed[1..][j - 1];
    }
  }

  /** Where a recorded object is located says exactly how it is listed. */
  lemma LocateIff(e: Entry, observed: seq<Observed>)
    requires e.id.Some?
    ensures !Locate(e, observed).NoReceipt?
    ensures Locate(e, observed).Ours? <==> ListedAsOurs(e, observed)
    ensures Locate(e, observed).Ours? ==> Some(Locate(e, observed).observed.id) == e.id
    ensures Locate(e, observed).Absent? <==> NotListed(e, observed)
  {
    FindFinds(observed, e.key.kind, e.id.value);
    var f := Find(observed, e.key.kind, e.id.value);
    hide Find;
    if f.Some? {
      var i := FirstBearer(observed, e.key.kind, e.id.value);
      assert Bears(observed[i], e);
    }
  }

  // ---------------------------------------------------------------- what the order demands

  datatype Targets = Targets(containers: seq<Entry>, images: seq<Entry>, leases: seq<Entry>)

  /** The entry was released before, or the trace released it. */
  ghost predicate ReleasedBy(start: Ledger, trace: seq<Event>, k: Key) {
    IsReleased(start, k) || exists i :: 0 <= i < |trace| && trace[i].Settle? && trace[i].key == k
                                        && trace[i].outcome in {Removed, AlreadyAbsent}
  }

  predicate Touches(e: Event) {
    e.Attempt? || e.Asked? || e.Settle?
  }

  predicate TouchesContainer(e: Event) {
    Touches(e) && e.key.kind == Container
  }

  ghost predicate ContainersGone(t: Targets, start: Ledger, trace: seq<Event>) {
    forall i :: 0 <= i < |t.containers| ==> ReleasedBy(start, trace, t.containers[i].key)
  }

  /** A listing later than every container step shows no container with this image, and none with an unknown one. */
  ghost predicate ShownUnused(trace: seq<Event>, id: string) {
    exists j :: 0 <= j < |trace| && trace[j].ListedContainers?
      && (forall c <- trace[j].running :: c.imageId != "" && c.imageId != id)
      && forall i :: j < i < |trace| ==> !TouchesContainer(trace[i])
  }

  /** A listing shows the recorded object of the entry as this deployment's own. */
  ghost predicate ShownOurs(start: Ledger, trace: seq<Event>, k: Key, id: string) {
    && k in start && start[k].id == Some(id)
    && exists j :: 0 <= j < |trace| && trace[j].ListedAll? && ListedAsOurs(start[k], trace[j].observed)
  }

  /** A listing does not show it. */
  ghost predicate ShownAbsent(start: Ledger, trace: seq<Event>, k: Key) {
    k in start && exists j :: 0 <= j < |trace| && trace[j].ListedAll? && NotListed(start[k], trace[j].observed)
  }

  ghost predicate WasAsked(trace: seq<Event>, k: Key) {
    exists j :: 0 <= j < |trace| && trace[j].Asked? && trace[j].key == k
  }

  /** What may be recorded as gone: an object whose removal was asked for, or one that a listing does not show. */
  ghost predicate MayBeGone(start: Ledger, trace: seq<Event>, k: Key, o: Outcome) {
    o in {Removed, AlreadyAbsent} && k.kind != PortLease ==>
      WasAsked(trace, k) || (o == AlreadyAbsent && ShownAbsent(start, trace, k))
  }

  ghost predicate ShownUnmapped(trace: seq<Event>, name: string) {
    exists j :: 0 <= j < |trace| && trace[j].ListedPorts? && PortOf(name).Some?
      && PortOf(name).value !in trace[j].ports
      && forall i :: j < i < |trace| ==> !TouchesContainer(trace[i])
  }

  /** What must be so before `e` may follow `trace`. */
  ghost predicate InOrder(t: Targets, start: Ledger, trace: seq<Event>, e: Event) {
    Touches(e) ==>
      && (forall i :: 0 <= i < |trace| && TouchesContainer(trace[i]) && trace[i].key != e.key
                      ==> ReleasedBy(start, trace, trace[i].key))
      && (e.key.kind != Container ==> ContainersGone(t, start, trace))
      && (e.Asked? ==> ShownOurs(start, trace, e.key, e.id) && (e.key.kind == Image ==> ShownUnused(trace, e.id)))
      && (e.Settle? ==> MayBeGone(start, trace, e.key, e.outcome))
      && (e.key.kind == PortLease ==> ShownUnmapped(trace, e.key.name))
  }

  ghost predicate Orderly(t: Targets, start: Ledger, trace: seq<Event>) {
    forall i :: 0 <= i < |trace| ==> InOrder(t, start, trace[..i], trace[i])
  }

  lemma OrderlyOne(t: Targets, start: Ledger, trace: seq<Event>, e: Event)
    requires Orderly(t, start, trace) && InOrder(t, start, trace, e)
    ensures Orderly(t, start, trace + [e])
  {
    hide InOrder;
    forall i | 0 <= i < |trace| + 1 ensures (trace + [e])[..i] == if i == |trace| then trace else trace[..i] {}
  }

  lemma ReleasedOne(start: Ledger, trace: seq<Event>, e: Event, k: Key)
    ensures ReleasedBy(start, trace + [e], k)
       <==> ReleasedBy(start, trace, k) || (e.Settle? && e.key == k && e.outcome in {Removed, AlreadyAbsent})
  {
    var more := trace + [e];
    assert more[|trace|] == e;
    assert forall i :: 0 <= i < |trace| ==> more[i] == trace[i];
  }

  /**
    The first container whose result is no release ends everything: unless a later step released it, nothing else
    is touched after it.
   */
  lemma UncleanEndsEverything(t: Targets, start: Ledger, trace: seq<Event>, i: nat, j: nat)
    requires Orderly(t, start, trace) && i < j < |trace|
    requires trace[i].Settle? && trace[i].key.kind == Container && Touches(trace[j])
    requires !ReleasedBy(start, trace[..j], trace[i].key)
    ensures trace[j].key == trace[i].key
  {
    assert InOrder(t, start, trace[..j], trace[j]);
    assert trace[..j][i] == trace[i];
  }

  // ---------------------------------------------------------------- numbers of ports

  /** A port number of sixteen bits in decimal; a leading `+` is read as the standard library reads it. */
  function PortOf(name: string): Option<nat> {
    var d := if name != "" && name[0] == '+' then name[1..] else name;
    if d == "" || !Numeral(d) then None
    else
      var n := Decimal(d);
      if n > 65535 then None else Some(n)
  }

  /** A name is a port's exactly when it writes a number of sixteen bits, with zeros in front or a plus sign. */
  lemma PortIff(name: string, n: nat)
    ensures PortOf(name) == Some(n) <==>
            && n < 0x1_0000
            && (WritesNumber(name, n) || (name != "" && name[0] == '+' && WritesNumber(name[1..], n)))
  {
    hide Numeral, Decimal, WritesNumber;
    if name != "" { NumeralIff(name, n); }
    if name != "" && name[1..] != "" { NumeralIff(name[1..], n); }
    NothingIsNoNumber(n);
    if name != "" { PlusIsNoNumber(name, n); }
  }

  lemma NothingIsNoNumber(n: nat)
    ensures !WritesNumber("", n)
  {
  }

  lemma PlusIsNoNumber(name: string, n: nat)
    requires name != ""
    ensures name[0] == '+' ==> !WritesNumber(name, n)
  {
    if WritesNumber(name, n) {
      NumeralIff(name, n);
    }
  }

  // ---------------------------------------------------------------- the command

  /** What Docker answers a removal with. */
  datatype Answer = DidRemove | WasAbsent | Refusal | Conflict | Error

  /** What Docker and the journal will do: the answers to removals and the fate of each write, in order. */
  datatype World = World(answers: seq<Answer>, writes: seq<bool>)

  datatype Action = RemoveIt(key: Key, id: string) | RefuseIt(key: Key) | MarkAbsent(key: Key) | ReleaseLease(key: Key)

  datatype Verdict = NothingToDo | RefusedToStart | Stopped | Incomplete | Complete

  predicate Bad(s: EntryState) {
    s in {CleanupFailed, CleanupConflict, Refused}
  }

  /** A result was recorded: what was tried is released or it is on record that it is not. */
  predicate Settled(l: Ledger, k: Key) {
    k in l && (l[k].state == Released || Bad(l[k].state))
  }

  ghost predicate SomethingBad(l: Ledger) {
    exists k <- l :: Bad(l[k].state)
  }

  /** A listing shows a container that uses the image, or one whose image is unknown. */
  ghost predicate ShownUsed(trace: seq<Event>, id: string) {
    exists j :: 0 <= j < |trace| && trace[j].ListedContainers?
      && exists c <- trace[j].running :: c.imageId == "" || c.imageId == id
  }

  /** The port is mapped in a listing, or the lease names no port. */
  ghost predicate ShownMapped(trace: seq<Event>, name: string) {
    PortOf(name).None? || exists j :: 0 <= j < |trace| && trace[j].ListedPorts? && PortOf(name).value in trace[j].ports
  }

  /** The targets are entries of this ledger, each of its kind. */
  ghost predicate OfThisLedger(t: Targets, l: Ledger) {
    && (forall e <- t.containers :: e.key in l && l[e.key] == e && e.key.kind == Container)
    && (forall e <- t.images :: e.key in l && l[e.key] == e && e.key.kind == Image)
    && (forall e <- t.leases :: e.key in l && l[e.key] == e && e.key.kind == PortLease)
    && Distinct(t.containers) && Distinct(t.images) && Distinct(t.leases)
  }

  predicate Distinct(entries: seq<Entry>) {
    forall i, j :: 0 <= i < j < |entries| ==> entries[i].key != entries[j].key
  }

  /** Docker's next answer is that the object is gone. */
  predicate SaysGone(answers: seq<Answer>) {
    answers != [] && answers[0] in {DidRemove, WasAbsent}
  }

  lemma Longer(start: Ledger, before: seq<Event>, now: seq<Event>)
    requires before <= now
    ensures forall k :: ReleasedBy(start, before, k) ==> ReleasedBy(start, now, k)
  {
    forall k | ReleasedBy(start, before, k) ensures ReleasedBy(start, now, k) {
      if !IsReleased(start, k) {
        var i :| 0 <= i < |before| && before[i].Settle? && before[i].key == k
                 && before[i].outcome in {Removed, AlreadyAbsent};
        assert now[i] == before[i];
      }
    }
  }

  lemma LaterPorts(before: seq<Event>, now: seq<Event>, name: string)
    requires before <= now && ShownUnmapped(before, name)
    requires forall i :: |before| <= i < |now| ==> !TouchesContainer(now[i])
    ensures ShownUnmapped(now, name)
  {
    hide PortOf;
    var j :| 0 <= j < |before| && before[j].ListedPorts? && PortOf(name).Some? && PortOf(name).value !in before[j].ports
             && forall i :: j < i < |before| ==> !TouchesContainer(before[i]);
    assert now[j] == before[j];
    assert forall i :: 0 <= i < |before| ==> now[i] == before[i];
  }

  lemma LaterUnused(before: seq<Event>, now: seq<Event>, id: string)
    requires before <= now && ShownUnused(before, id)
    requires forall i :: |before| <= i < |now| ==> !TouchesContainer(now[i])
    ensures ShownUnused(now, id)
  {
    var j :| 0 <= j < |before| && before[j].ListedContainers?
             && (forall c <- before[j].running :: c.imageId != "" && c.imageId != id)
             && forall i :: j < i < |before| ==> !TouchesContainer(before[i]);
    assert now[j] == before[j];
    assert forall i :: 0 <= i < |before| ==> now[i] == before[i];
  }

  lemma LaterOurs(start: Ledger, before: seq<Event>, now: seq<Event>, k: Key, id: string)
    requires before <= now
    ensures ShownOurs(start, before, k, id) ==> ShownOurs(start, now, k, id)
    ensures ShownAbsent(start, before, k) ==> ShownAbsent(start, now, k)
  {
    assert forall i :: 0 <= i < |before| ==> now[i] == before[i];
    hide ListedAsOurs, NotListed;
  }

  // ---------------------------------------------------------------- what the command does, as a function

  /** The ledger, and what Docker and the journal will still do. */
  datatype Sim = Sim(ledger: Ledger, answers: seq<Answer>, writes: seq<bool>)

  datatype Ran = Ran(sim: Sim, ok: bool)

  function Rest<T>(xs: seq<T>): seq<T> {
    if xs == [] then [] else xs[1..]
  }

  /** One record, or nothing. */
  function Wrote(s: Sim, e: Event): Ran {
    match Apply(s.ledger, e)
    case None => Ran(s, false)
    case Some(l) =>
      var ok := s.writes == [] || s.writes[0];
      Ran(Sim(if ok then l else s.ledger, s.answers, Rest(s.writes)), ok)
  }

  function OutcomeOf(s: Sim, a: Action): Outcome {
    match a
    case RemoveIt(k, _) =>
      if s.answers == [] then NotRemoved
      else
        (match s.answers[0]
         case DidRemove => Removed
         case WasAbsent => AlreadyAbsent
         case Refusal => Mismatched
         case Conflict => if k in s.ledger && MayConflict(s.ledger[k]) then InConflict else NotRemoved
         case Error => NotRemoved)
    case RefuseIt(_) => Mismatched
    case MarkAbsent(_) => AlreadyAbsent
    case ReleaseLease(_) => Removed
  }

  /** One action: the attempt, the request if there is one, and the result. */
  function Done(s: Sim, a: Action): Ran {
    var r := Wrote(s, Attempt(a.key));
    if !r.ok then r
    else
      var asked := if a.RemoveIt? then r.sim.(answers := Rest(s.answers)) else r.sim;
      Wrote(asked, Settle(a.key, OutcomeOf(r.sim, a)))
  }

  /** One action after the other, until a record cannot be written. */
  function Each(s: Sim, actions: seq<Action>): Ran
    decreases |actions|
  {
    if actions == [] then Ran(s, true)
    else
      var r := Done(s, actions[0]);
      if !r.ok then r else Each(r.sim, actions[1..])
  }

  /** And the first that does not come out released ends it. */
  function EachClean(s: Sim, actions: seq<Action>): Ran
    decreases |actions|
  {
    if actions == [] then Ran(s, true)
    else
      var r := Done(s, actions[0]);
      if !r.ok || !IsReleased(r.sim.ledger, actions[0].key) then r else EachClean(r.sim, actions[1..])
  }

  /** What the listing calls for; nothing for an entry that is released. */
  function ActionFor(e: Entry, observed: seq<Observed>): seq<Action> {
    if e.state == Released then []
    else
      match Locate(e, observed)
      case Ours(o) => [RemoveIt(e.key, o.id)]
      case Mismatch => [RefuseIt(e.key)]
      case Absent => [MarkAbsent(e.key)]
      case NoReceipt => []
  }

  function ContainerActions(entries: seq<Entry>, observed: seq<Observed>): seq<Action> {
    if entries == [] then [] else ActionFor(entries[0], observed) + ContainerActions(entries[1..], observed)
  }

  predicate Uses(running: seq<Running>, id: string) {
    exists i | 0 <= i < |running| :: running[i].imageId == "" || running[i].imageId == id
  }

  /** An image that a container uses is kept. */
  function ImageActionFor(e: Entry, observed: seq<Observed>, running: seq<Running>): seq<Action> {
    if Locate(e, observed).Ours? && Uses(running, Locate(e, observed).observed.id) then [] else ActionFor(e, observed)
  }

  function ImageActions(entries: seq<Entry>, observed: seq<Observed>, running: seq<Running>): seq<Action> {
    if entries == [] then []
    else ImageActionFor(entries[0], observed, running) + ImageActions(entries[1..], observed, running)
  }

  /** The port is none that Docker maps. */
  predicate Unmapped(e: Entry, ports: set<nat>) {
    PortOf(e.key.name).Some? && PortOf(e.key.name).value !in ports
  }

  function LeaseActionFor(e: Entry, ports: set<nat>): seq<Action> {
    if e.state == Released || !Unmapped(e, ports) then [] else [ReleaseLease(e.key)]
  }

  function LeaseActions(entries: seq<Entry>, ports: set<nat>): seq<Action> {
    if entries == [] then [] else LeaseActionFor(entries[0], ports) + LeaseActions(entries[1..], ports)
  }

  predicate AnyOpen(entries: seq<Entry>) {
    exists i | 0 <= i < |entries| :: entries[i].state != Released
  }

  predicate AnyMapped(entries: seq<Entry>, ports: set<nat>) {
    exists i | 0 <= i < |entries| :: entries[i].state != Released && !Unmapped(entries[i], ports)
  }

  predicate AllIn(l: Ledger, entries: seq<Entry>) {
    forall i | 0 <= i < |entries| :: IsReleased(l, entries[i].key)
  }

  predicate AnyBad(l: Ledger, entries: seq<Entry>) {
    exists i | 0 <= i < |entries| :: entries[i].key in l && Bad(l[entries[i].key].state)
  }

  lemma EachNothing(s: Sim)
    ensures Each(s, []) == Ran(s, true)
  {
  }

  lemma {:induction false} EachJoin(s: Sim, a: seq<Action>, b: seq<Action>)
    ensures Each(s, a + b) == if Each(s, a).ok then Each(Each(s, a).sim, b) else Each(s, a)
    decreases |a|
  {
    hide Done;
    if a == [] {
      assert a + b == b;
    } else {
      EachJoin(Done(s, a[0]).sim, a[1..], b);
      assert (a + b)[1..] == a[1..] + b;
    }
  }

  lemma ImagesStep(s: Sim, entries: seq<Entry>, i: nat, observed: seq<Observed>, running: seq<Running>)
    requires i < |entries|
    ensures var rest := ImageActions(entries[i + 1..], observed, running);
            var one := Each(s, ImageActionFor(entries[i], observed, running));
            && Each(s, ImageActions(entries[i..], observed, running)) == (if one.ok then Each(one.sim, rest) else one)
            && (entries[i].state == Released ==> one == Ran(s, true))
  {
    hide Locate, Each;
    assert entries[i..][1..] == entries[i + 1..];
    EachJoin(s, ImageActionFor(entries[i], observed, running), ImageActions(entries[i + 1..], observed, running));
    EachNothing(s);
  }

  lemma LeasesStep(s: Sim, entries: seq<Entry>, i: nat, ports: set<nat>)
    requires i < |entries|
    ensures var rest := LeaseActions(entries[i + 1..], ports);
            var one := Each(s, LeaseActionFor(entries[i], ports));
            && Each(s, LeaseActions(entries[i..], ports)) == (if one.ok then Each(one.sim, rest) else one)
            && (entries[i].state == Released ==> one == Ran(s, true))
  {
    hide Unmapped, Each;
    assert entries[i..][1..] == entries[i + 1..];
    EachJoin(s, LeaseActionFor(entries[i], ports), LeaseActions(entries[i + 1..], ports));
    EachNothing(s);
  }

  lemma ContainersStep(entries: seq<Entry>, i: nat, observed: seq<Observed>)
    requires i < |entries|
    ensures ContainerActions(entries[i..], observed)
         == ActionFor(entries[i], observed) + ContainerActions(entries[i + 1..], observed)
  {
    hide ActionFor;
    assert entries[i..][1..] == entries[i + 1..];
  }

  lemma ContainersFrom(entries: seq<Entry>, observed: seq<Observed>)
    ensures ContainerActions(entries, observed) == [] + ContainerActions(entries[0..], observed)
  {
    assert entries[0..] == entries;
  }

  lemma EndOfActions(actions: seq<Action>, entries: seq<Entry>, observed: seq<Observed>)
    ensures actions + ContainerActions(entries[|entries|..], observed) == actions
  {
    assert entries[|entries|..] == [];
  }

  lemma Regroup<T>(a: seq<T>, b: seq<T>, c: seq<T>)
    ensures a + (b + c) == a + b + c
  {
  }

  lemma NoActions(observed: seq<Observed>, running: seq<Running>, ports: set<nat>)
    ensures ImageActions([], observed, running) == []
    ensures LeaseActions([], ports) == []
  {
  }

  /** An open container has its action. */
  lemma {:induction false} HasAction(entries: seq<Entry>, observed: seq<Observed>, i: nat) returns (k: nat)
    requires i < |entries| && entries[i].state != Released && entries[i].id.Some?
    ensures var actions := ContainerActions(entries, observed);
            k < |actions| && actions[k].key == entries[i].key
    decreases |entries|
  {
    if i == 0 {
      LocateIff(entries[0], observed);
      hide Locate;
      k := 0;
    } else {
      hide ActionFor;
      var j := HasAction(entries[1..], observed, i - 1);
      k := |ActionFor(entries[0], observed)| + j;
    }
  }

  lemma ReleasedBefore(start: Ledger, trace: seq<Event>, k: Key)
    requires IsReleased(start, k)
    ensures ReleasedBy(start, trace, k)
  {
  }

  datatype Ended = Ended(verdict: Verdict, sim: Sim)

  /** Images and leases, once the containers are gone. */
  function RestOf(t: Targets, s: Sim, again: Option<seq<Observed>>, running: Option<seq<Running>>,
                  ports: Option<set<nat>>): Ended {
    var i := ImagesOf(t, s, again, running);
    if !i.ok then Ended(Stopped, i.sim)
    else
      var l := LeasesOf(t, i.sim, ports);
      if !l.ok then Ended(Stopped, l.sim)
      else if ports.Some? && AnyMapped(t.leases, ports.value) then Ended(Incomplete, l.sim)
      else Ended(if AnyBad(l.sim.ledger, t.images) then Incomplete else Complete, l.sim)
  }

  function ImagesOf(t: Targets, s: Sim, again: Option<seq<Observed>>, running: Option<seq<Running>>): Ran {
    if !AnyOpen(t.images) then Ran(s, true)
    else if again.None? || running.None? then Ran(s, false)
    else Each(s, ImageActions(t.images, again.value, running.value))
  }

  function LeasesOf(t: Targets, s: Sim, ports: Option<set<nat>>): Ran {
    if !AnyOpen(t.leases) then Ran(s, true)
    else if ports.None? then Ran(s, false)
    else Each(s, LeaseActions(t.leases, ports.value))
  }

  /** Nothing left to do, or something that may not be touched. */
  function StartOf(t: Targets): Option<Verdict> {
    var docker := t.containers + t.images;
    if !AnyOpen(t.containers + t.images + t.leases) then Some(NothingToDo)
    else if exists e <- t.containers + t.images + t.leases :: e.state == Refused then Some(RefusedToStart)
    else if exists e <- docker :: e.state != Released && e.id.None? then Some(RefusedToStart)
    else None
  }

  function TeardownOf(t: Targets, s: Sim, first: Option<seq<Observed>>, again: Option<seq<Observed>>,
                      running: Option<seq<Running>>, ports: Option<set<nat>>): Ended {
    if StartOf(t).Some? then Ended(StartOf(t).value, s)
    else if first.None? then Ended(Stopped, s)
    else
      var c := EachClean(s, ContainerActions(t.containers, first.value));
      if !c.ok then Ended(Stopped, c.sim)
      else if !AllIn(c.sim.ledger, t.containers) then Ended(Incomplete, c.sim)
      else RestOf(t, c.sim, again, running, ports)
  }

  class Command {
    const start: Ledger
    const t: Targets
    var ledger: Ledger
    var trace: seq<Event>
    var answers: seq<Answer>
    var writes: seq<bool>

    ghost function Now(): Sim
      reads this
    {
      Sim(ledger, answers, writes)
    }

    ghost predicate Valid()
      reads this
    {
      && Sound(ledger)
      && Orderly(t, start, trace)
      && OfThisLedger(t, start)
      && (forall k <- start :: k in ledger && ledger[k].app == start[k].app && ledger[k].id == start[k].id)
      && (forall k :: IsReleased(ledger, k) <==> ReleasedBy(start, trace, k))
    }

    constructor (start: Ledger, t: Targets, w: World)
      requires Sound(start) && OfThisLedger(t, start)
      ensures this.start == start && this.t == t && ledger == start && trace == [] && Valid()
    {
      this.start, this.t, ledger, trace, answers, writes := start, t, start, [], w.answers, w.writes;
    }

    /** Something Docker tells and nothing changes. */
    method Note(e: Event)
      requires Valid() && !Touches(e)
      modifies this`trace
      ensures Valid() && trace == old(trace) + [e]
    {
      OrderlyOne(t, start, trace, e);
      forall k ensures ReleasedBy(start, trace + [e], k) <==> ReleasedBy(start, trace, k) {
        ReleasedOne(start, trace, e, k);
      }
      trace := trace + [e];
    }

    /** `write_record`: the ledger's rules first, then the journal; nothing changes when either says no. */
    method WriteRecord(e: Event) returns (ok: bool)
      requires Valid() && (e.Attempt? || e.Settle?) && InOrder(t, start, trace, e)
      modifies this`ledger, this`trace, this`writes
      ensures Valid()
      ensures ok ==> Apply(old(ledger), e) == Some(ledger) && trace == old(trace) + [e]
      ensures !ok ==> ledger == old(ledger) && trace == old(trace)
      ensures Ran(Now(), ok) == Wrote(old(Now()), e)
    {
      hide Orderly, InOrder, ReleasedBy;
      var next := Apply(ledger, e);
      if next.None? {
        return false;
      }
      ok := writes == [] || writes[0];
      writes := if writes == [] then [] else writes[1..];
      if ok {
        OrderlyOne(t, start, trace, e);
        forall k ensures IsReleased(next.value, k) <==> ReleasedBy(start, trace + [e], k) {
          ReleasedOne(start, trace, e, k);
        }
        ledger, trace := next.value, trace + [e];
      }
    }

    /** The request goes out. */
    method Ask(e: Event)
      requires Valid() && e.Asked? && InOrder(t, start, trace, e)
      modifies this`trace
      ensures Valid() && trace == old(trace) + [e]
    {
      OrderlyOne(t, start, trace, e);
      forall k ensures ReleasedBy(start, trace + [e], k) <==> ReleasedBy(start, trace, k) {
        ReleasedOne(start, trace, e, k);
      }
      trace := trace + [e];
    }

    /** One removal asked of Docker, and the outcome its answer stands for. */
    method AskDocker(k: Key, id: string) returns (outcome: Outcome)
      requires Valid() && k in ledger && InOrder(t, start, trace, Asked(k, id))
      modifies this`trace, this`answers
      ensures Valid() && trace == old(trace) + [Asked(k, id)]
      ensures outcome in {Removed, AlreadyAbsent} <==> SaysGone(old(answers))
      ensures outcome == OutcomeOf(old(Now()), RemoveIt(k, id)) && answers == Rest(old(answers))
    {
      hide InOrder, Orderly, ReleasedBy, Sound;
      var answer := Error;
      if answers != [] {
        answer, answers := answers[0], answers[1..];
      }
      Ask(Asked(k, id));
      outcome := match answer
        case DidRemove => Removed
        case WasAbsent => AlreadyAbsent
        case Refusal => Mismatched
        case Conflict => if MayConflict(ledger[k]) then InConflict else NotRemoved
        case Error => NotRemoved;
    }

    /** Whatever the action asks of Docker, and what comes of it. */
    method Carry(a: Action) returns (outcome: Outcome)
      requires Valid() && (a.RemoveIt? ==> a.key in ledger && InOrder(t, start, trace, Asked(a.key, a.id)))
      modifies this`trace, this`answers
      ensures Valid()
      ensures trace == old(trace) + if a.RemoveIt? then [Asked(a.key, a.id)] else []
      ensures outcome == OutcomeOf(old(Now()), a)
      ensures answers == if a.RemoveIt? then Rest(old(answers)) else old(answers)
      ensures a.RemoveIt? ==> (outcome in {Removed, AlreadyAbsent} <==> SaysGone(old(answers)))
    {
      hide InOrder, Orderly, ReleasedBy, Sound;
      match a {
        case RemoveIt(k, id) => outcome := AskDocker(k, id);
        case RefuseIt(_) => outcome := Mismatched;
        case MarkAbsent(_) => outcome := AlreadyAbsent;
        case ReleaseLease(_) => outcome := Removed;
      }
    }

    /** What follows the attempt: the request if there is one, and the result. */
    method FollowUp(a: Action, ghost before: seq<Event>) returns (ok: bool)
      requires Valid() && a.key in ledger && before <= trace
      requires forall i :: |before| <= i < |trace| ==> Touches(trace[i]) && trace[i].key == a.key
      requires InOrder(t, start, before, Attempt(a.key))
      requires a.RemoveIt? ==> InOrder(t, start, before, Asked(a.key, a.id))
      requires a.MarkAbsent? ==> ShownAbsent(start, before, a.key)
      requires a.ReleaseLease? ==> a.key.kind == PortLease
      modifies this
      ensures Valid() && old(trace) <= trace
      ensures forall i :: |old(trace)| <= i < |trace| ==> Touches(trace[i]) && trace[i].key == a.key
      ensures ok ==> a.key in ledger && ledger[a.key].state == After(OutcomeOf(old(Now()), a))
      ensures a.RemoveIt? ==> (OutcomeOf(old(Now()), a) in {Removed, AlreadyAbsent} <==> SaysGone(old(answers)))
      ensures var asked := if a.RemoveIt? then old(Now()).(answers := Rest(old(answers))) else old(Now());
              Ran(Now(), ok) == Wrote(asked, Settle(a.key, OutcomeOf(old(Now()), a)))
      ensures forall k <- old(ledger) :: k != a.key ==> k in ledger && ledger[k] == old(ledger)[k]
    {
      hide InOrder, Orderly, ReleasedBy, Sound, ContainersGone, ShownAbsent, Apply, Wrote, Valid;
      Follows(a, before, trace);
      ghost var tried := ledger;
      var outcome := Carry(a);
      Follows(a, before, trace);
      assert a.RemoveIt? ==> trace[|trace| - 1] == Asked(a.key, a.id);
      assert MayBeGone(start, trace, a.key, outcome);
      ok := WriteRecord(Settle(a.key, outcome));
      if ok { ApplyChanges(tried, Settle(a.key, outcome), ledger); }
    }

    /** One action of `execute_actions`: an attempt, whatever is asked of Docker, and the result. */
    method Execute(a: Action) returns (ok: bool)
      requires Valid()
      requires Ready(a)
      modifies this
      ensures Valid()
      ensures old(trace) <= trace
      ensures forall i :: |old(trace)| <= i < |trace| ==> Touches(trace[i]) && trace[i].key == a.key
      ensures ok ==> Settled(ledger, a.key)
      ensures ok && (a.ReleaseLease? || a.MarkAbsent?) ==> IsReleased(ledger, a.key)
      ensures ok && a.RemoveIt? ==> (IsReleased(ledger, a.key) <==> SaysGone(old(answers)))
      ensures ok && a.RefuseIt? ==> !IsReleased(ledger, a.key)
      ensures Ran(Now(), ok) == Done(old(Now()), a)
      ensures forall k <- old(ledger) :: k != a.key ==> k in ledger && ledger[k] == old(ledger)[k]
    {
      hide InOrder, Orderly, ReleasedBy, Sound, ContainersGone, ShownAbsent, Apply, Wrote, Valid;
      ghost var before, first := trace, ledger;
      ok := WriteRecord(Attempt(a.key));
      if !ok { return; }
      ApplyChanges(first, Attempt(a.key), ledger);
      ok := FollowUp(a, before);
    }

    /** Everything the order demands of the action is so, for its whole course. */
    ghost predicate Ready(a: Action)
      reads this
    {
      && (a.RemoveIt? ==> InOrder(t, start, trace, Asked(a.key, a.id)))
      && (a.MarkAbsent? ==> ShownAbsent(start, trace, a.key))
      && (a.ReleaseLease? ==> a.key.kind == PortLease)
      && InOrder(t, start, trace, Attempt(a.key))
    }

    // ---------------------------------------------------------------- phase 1

    /** Nothing but containers was touched so far, and every one of them came out clean. */
    ghost predicate CleanSoFar()
      reads this
    {
      forall i :: 0 <= i < |trace| && Touches(trace[i]) ==>
        trace[i].key.kind == Container && ReleasedBy(start, trace, trace[i].key)
    }

    /** An action that the listing calls for on one of the containers. */
    ghost predicate Planned(a: Action, observed: seq<Observed>) {
      && !a.ReleaseLease?
      && exists e <- t.containers ::
           e.key == a.key && (a.RemoveIt? ==> ListedAsOurs(e, observed) && e.id == Some(a.id))
           && (a.MarkAbsent? ==> NotListed(e, observed))
    }

    /** Nothing was touched but the target's containers. */
    ghost predicate TargetsOnly()
      reads this
    {
      forall i :: 0 <= i < |trace| && Touches(trace[i]) ==>
        trace[i].key.kind == Container && exists e <- t.containers :: e.key == trace[i].key
    }

    /** The actions that the first listing calls for, one for each container that is not released. */
    method PlanContainers(observed: seq<Observed>) returns (actions: seq<Action>)
      requires forall e <- t.containers :: e.state != Released ==> e.id.Some?
      ensures actions == ContainerActions(t.containers, observed)
      ensures forall a <- actions :: Planned(a, observed)
    {
      actions := [];
      hide *;
      ContainersFrom(t.containers, observed);
      for i := 0 to |t.containers|
        invariant forall a <- actions :: Planned(a, observed)
        invariant ContainerActions(t.containers, observed) == actions + ContainerActions(t.containers[i..], observed)
      {
        ContainersStep(t.containers, i, observed);
        ActionIs(t.containers[i], observed);
        var more := PlanOne(t.containers[i], observed);
        Regroup(actions, more, ContainerActions(t.containers[i + 1..], observed));
        actions := actions + more;
      }
      EndOfActions(actions, t.containers, observed);
    }

    /** What one container calls for. */
    method PlanOne(e: Entry, observed: seq<Observed>) returns (actions: seq<Action>)
      requires e in t.containers && (e.state != Released ==> e.id.Some?)
      ensures actions == ActionFor(e, observed)
    {
      if e.state == Released {
        return [];
      }
      LocateIff(e, observed);
      hide ListedAsOurs, NotListed;
      match Locate(e, observed) {
        case Ours(o) => actions := [RemoveIt(e.key, o.id)];
        case Mismatch => actions := [RefuseIt(e.key)];
        case Absent => actions := [MarkAbsent(e.key)];
      }
    }

    lemma ActionIs(e: Entry, observed: seq<Observed>)
      requires e in t.containers && (e.state != Released ==> e.id.Some?)
      ensures forall a <- ActionFor(e, observed) :: Planned(a, observed)
    {
      if e.state != Released {
        LocateIff(e, observed);
      }
      hide Locate, ListedAsOurs, NotListed;
    }

    /** One planned action, from a clean start. */
    method DoContainer(observed: seq<Observed>, a: Action) returns (ok: bool)
      requires Valid() && CleanSoFar() && TargetsOnly() && ListedAll(observed) in trace && Planned(a, observed)
      modifies this
      ensures Valid() && TargetsOnly() && old(trace) <= trace && ListedAll(observed) in trace
      ensures forall i :: |old(trace)| <= i < |trace| ==> TouchesContainer(trace[i])
      ensures ok ==> if IsReleased(ledger, a.key) then CleanSoFar() else SomethingBad(ledger)
      ensures Ran(Now(), ok) == Done(old(Now()), a)
    {
      ghost var before := trace;
      ContainerReady(observed, a);
      hide Orderly, Sound, Ready, Done, ListedAsOurs, NotListed;
      ok := Execute(a);
      assert forall i :: 0 <= i < |before| ==> trace[i] == before[i];
      assert ListedAll(observed) in trace;
      if ok && IsReleased(ledger, a.key) {
        StillClean(before);
      }
    }

    lemma ContainerReady(observed: seq<Observed>, a: Action)
      requires Valid() && CleanSoFar() && TargetsOnly() && ListedAll(observed) in trace && Planned(a, observed)
      ensures Ready(a) && a.key.kind == Container && exists e <- t.containers :: e.key == a.key
    {
      hide Orderly, Sound, ListedAsOurs, NotListed, ReleasedBy;
      var e :| e in t.containers && e.key == a.key && (a.RemoveIt? ==> ListedAsOurs(e, observed) && e.id == Some(a.id))
               && (a.MarkAbsent? ==> NotListed(e, observed));
      assert start[a.key] == e;
      var j :| 0 <= j < |trace| && trace[j] == ListedAll(observed);
    }

    /** One container at a time; the first that does not come out clean stops everything. */
    method RunContainers(observed: seq<Observed>, actions: seq<Action>) returns (ok: bool)
      requires Valid() && CleanSoFar() && TargetsOnly() && ListedAll(observed) in trace
      requires forall a <- actions :: Planned(a, observed)
      modifies this
      ensures Valid() && TargetsOnly() && old(trace) <= trace
      ensures forall i :: |old(trace)| <= i < |trace| ==> TouchesContainer(trace[i])
      ensures ok ==> SomethingBad(ledger) || forall i :: 0 <= i < |actions| ==> ReleasedBy(start, trace, actions[i].key)
      ensures Ran(Now(), ok) == EachClean(old(Now()), actions)
    {
      hide Orderly, Sound, Planned, ReleasedBy, SomethingBad, Done;
      ok := true;
      assert actions[0..] == actions;
      for i := 0 to |actions|
        invariant ok && Valid() && CleanSoFar() && TargetsOnly() && old(trace) <= trace && ListedAll(observed) in trace
        invariant forall i :: |old(trace)| <= i < |trace| ==> TouchesContainer(trace[i])
        invariant forall j :: 0 <= j < i ==> ReleasedBy(start, trace, actions[j].key)
        invariant EachClean(old(Now()), actions) == EachClean(Now(), actions[i..])
      {
        ghost var before := trace;
        assert actions[i..][1..] == actions[i + 1..];
        ok := DoContainer(observed, actions[i]);
        if !ok || !IsReleased(ledger, actions[i].key) {
          return;
        }
        Longer(start, before, trace);
      }
    }

    lemma StillClean(before: seq<Event>)
      requires before <= trace && Valid()
      requires forall i :: 0 <= i < |before| && Touches(before[i]) ==>
                 before[i].key.kind == Container && ReleasedBy(start, before, before[i].key)
      requires forall i :: |before| <= i < |trace| ==>
                 Touches(trace[i]) && trace[i].key.kind == Container && IsReleased(ledger, trace[i].key)
      ensures CleanSoFar()
    {
      Longer(start, before, trace);
      forall i | 0 <= i < |trace| && Touches(trace[i])
        ensures trace[i].key.kind == Container && ReleasedBy(start, trace, trace[i].key)
      {
        if i < |before| { assert trace[i] == before[i]; }
      }
    }

    method AllReleased(entries: seq<Entry>) returns (all: bool)
      requires Valid()
      ensures all <==> forall i :: 0 <= i < |entries| ==> ReleasedBy(start, trace, entries[i].key)
    {
      for i := 0 to |entries|
        invariant forall j :: 0 <= j < i ==> ReleasedBy(start, trace, entries[j].key)
      {
        if !IsReleased(ledger, entries[i].key) {
          return false;
        }
      }
      all := true;
    }

    // ---------------------------------------------------------------- phases 2 and 3

    /** All the containers are gone, and none was touched after `at`. */
    ghost predicate Quiet(at: nat)
      reads this
    {
      && at <= |trace|
      && ContainersGone(t, start, trace)
      && (forall i :: 0 <= i < |trace| && TouchesContainer(trace[i]) ==> ReleasedBy(start, trace, trace[i].key))
      && forall i :: at <= i < |trace| ==> !TouchesContainer(trace[i])
    }

    lemma StillQuiet(at: nat, before: seq<Event>)
      requires before <= trace && at <= |before| && Valid()
      requires ContainersGone(t, start, before)
      requires forall i :: 0 <= i < |before| && TouchesContainer(before[i]) ==> ReleasedBy(start, before, before[i].key)
      requires forall i :: at <= i < |trace| ==> !TouchesContainer(trace[i])
      ensures Quiet(at)
    {
      Longer(start, before, trace);
      forall i | 0 <= i < |trace| && TouchesContainer(trace[i]) ensures ReleasedBy(start, trace, trace[i].key) {
        assert i < at && trace[i] == before[i];
      }
    }

    /** The image has its result, or a container was seen to use it. */
    ghost predicate ImageDone(e: Entry)
      reads this
    {
      Settled(ledger, e.key) || (e.id.Some? && ShownUsed(trace, e.id.value))
    }

    lemma StillUsed(before: seq<Event>, id: string)
      requires before <= trace && ShownUsed(before, id)
      ensures ShownUsed(trace, id)
    {
      var j :| 0 <= j < |before| && before[j].ListedContainers?
               && exists c <- before[j].running :: c.imageId == "" || c.imageId == id;
      assert trace[j] == before[j];
    }

    /** The two listings the images go by, and nothing touched a container since. */
    ghost predicate Listed(at: nat, observed: seq<Observed>, running: seq<Running>)
      reads this
    {
      && Quiet(at) && at + 2 <= |trace|
      && trace[at] == ListedAll(observed) && trace[at + 1] == ListedContainers(running)
    }

    /** The image's own action, unless a container is seen to use it. */
    method DoImage(e: Entry, ghost at: nat, observed: seq<Observed>, running: seq<Running>) returns (ok: bool)
      requires Valid() && Listed(at, observed, running) && e in t.images && e.id.Some? && e.state != Released
      modifies this
      ensures Valid() && old(trace) <= trace && Listed(at, observed, running)
      ensures ok ==> ImageDone(e) && forall k :: Settled(old(ledger), k) ==> Settled(ledger, k)
      ensures Ran(Now(), ok) == Each(old(Now()), ImageActionFor(e, observed, running))
    {
      hide Orderly, Sound, ReleasedBy, ListedAsOurs, NotListed, Locate, Done, Ready, ShownUsed, Valid;
      LocateIff(e, observed);
      var a;
      match Locate(e, observed) {
        case Ours(o) =>
          if Uses(running, o.id) {
            SeenUsing(at, observed, running, o.id);
            return true;
          }
          a := RemoveIt(e.key, o.id);
        case Mismatch => a := RefuseIt(e.key);
        case Absent => a := MarkAbsent(e.key);
      }
      ghost var now := trace;
      ImageReady(e, at, observed, running, a);
      ok := Execute(a);
      ListedStill(at, observed, running, now);
    }

    lemma SeenUsing(at: nat, observed: seq<Observed>, running: seq<Running>, id: string)
      requires Listed(at, observed, running) && Uses(running, id)
      ensures ShownUsed(trace, id)
    {
    }

    lemma ListedStill(at: nat, observed: seq<Observed>, running: seq<Running>, before: seq<Event>)
      requires before <= trace && Valid() && at + 2 <= |before|
      requires before[at] == ListedAll(observed) && before[at + 1] == ListedContainers(running)
      requires ContainersGone(t, start, before)
      requires forall i :: 0 <= i < |before| && TouchesContainer(before[i]) ==> ReleasedBy(start, before, before[i].key)
      requires forall i :: at <= i < |trace| ==> !TouchesContainer(trace[i])
      ensures Listed(at, observed, running)
    {
      StillQuiet(at, before);
    }

    lemma ImageReady(e: Entry, at: nat, observed: seq<Observed>, running: seq<Running>, a: Action)
      requires Valid() && Listed(at, observed, running) && e in t.images && e.id.Some?
      requires a.key == e.key && !a.ReleaseLease?
      requires a.RemoveIt? ==> ListedAsOurs(e, observed) && e.id == Some(a.id) && !Uses(running, a.id)
      requires a.MarkAbsent? ==> NotListed(e, observed)
      ensures Ready(a) && e.key.kind == Image
    {
      hide Orderly, Sound, ReleasedBy, ListedAsOurs, NotListed;
      assert start[e.key] == e;
      assert trace[at] == ListedAll(observed) && trace[at + 1] == ListedContainers(running);
      if a.RemoveIt? {
        assert forall c <- running :: c.imageId != "" && c.imageId != a.id;
        assert ShownUnused(trace, a.id);
      }
    }

    method RunImages(observed: seq<Observed>, running: seq<Running>) returns (ok: bool)
      requires Valid() && Quiet(|trace|)
      requires forall e <- t.images :: e.state != Released ==> e.id.Some?
      requires forall e <- t.images :: e.state == Released ==> IsReleased(ledger, e.key)
      modifies this
      ensures Valid() && Quiet(|old(trace)|) && old(trace) <= trace
      ensures ok ==> forall i :: 0 <= i < |t.images| ==> ImageDone(t.images[i])
      ensures Ran(Now(), ok) == Each(old(Now()), ImageActions(t.images, observed, running))
    {
      hide Orderly, Sound, ReleasedBy, ImageActions, ImageActionFor, Each;
      ghost var at := |trace|;
      ghost var before := trace;
      Note(ListedAll(observed));
      Note(ListedContainers(running));
      StillQuiet(at, before);
      assert Listed(at, observed, running);
      hide Listed, Quiet, ShownUsed;
      ok := true;
      assert t.images[0..] == t.images;
      for i := 0 to |t.images|
        invariant ok && Valid() && Listed(at, observed, running) && before <= trace
        invariant forall j :: 0 <= j < i ==> ImageDone(t.images[j])
        invariant forall e <- t.images :: e.state == Released ==> Settled(ledger, e.key)
        invariant Each(old(Now()), ImageActions(t.images, observed, running))
               == Each(Now(), ImageActions(t.images[i..], observed, running))
      {
        var e := t.images[i];
        assert e in t.images;
        ImagesStep(Now(), t.images, i, observed, running);
        if e.state == Released {
          continue;
        }
        ghost var now := trace;
        ok := DoImage(e, at, observed, running);
        if !ok {
          ListedIsQuiet(at, observed, running);
          return;
        }
        forall j | 0 <= j < i ensures ImageDone(t.images[j]) {
          var e := t.images[j];
          if e.id.Some? && ShownUsed(now, e.id.value) {
            StillUsed(now, e.id.value);
          }
        }
      }
      EachNothing(Now());
      NoActions(observed, running, {});
      assert t.images[|t.images|..] == [];
      ListedIsQuiet(at, observed, running);
    }

    lemma ListedIsQuiet(at: nat, observed: seq<Observed>, running: seq<Running>)
      requires Listed(at, observed, running)
      ensures Quiet(at)
    {
    }

    /** The listing of ports the leases go by, and nothing touched a container since. */
    ghost predicate PortsListed(at: nat, ports: set<nat>)
      reads this
    {
      Quiet(at) && at < |trace| && trace[at] == ListedPorts(ports)
    }

    method DoLease(e: Entry, ghost at: nat, ports: set<nat>) returns (ok: bool, mapped: bool)
      requires Valid() && PortsListed(at, ports) && e.key.kind == PortLease && e.state != Released
      modifies this
      ensures Valid() && old(trace) <= trace && PortsListed(at, ports)
      ensures mapped ==> ok && ShownMapped(trace, e.key.name)
      ensures mapped <==> !Unmapped(e, ports)
      ensures ok && !mapped ==> IsReleased(ledger, e.key)
      ensures ok ==> forall k :: Settled(old(ledger), k) ==> Settled(ledger, k)
      ensures forall k :: IsReleased(old(ledger), k) ==> IsReleased(ledger, k)
      ensures Ran(Now(), ok) == Each(old(Now()), LeaseActionFor(e, ports))
    {
      hide Orderly, Sound, ReleasedBy, PortOf, Done;
      var port := PortOf(e.key.name);
      if port.None? || port.value in ports {
        assert ShownMapped(trace, e.key.name);
        return true, true;
      }
      assert ShownUnmapped(trace, e.key.name);
      ghost var now := trace;
      assert Ready(ReleaseLease(e.key));
      ok := Execute(ReleaseLease(e.key));
      mapped := false;
      StillQuiet(at, now);
      Longer(start, now, trace);
    }

    method RunLeases(ports: set<nat>) returns (ok: bool, kept: bool)
      requires Valid() && Quiet(|trace|)
      requires forall e <- t.leases :: e.state == Released ==> IsReleased(start, e.key)
      modifies this
      ensures Valid() && Quiet(|old(trace)|) && old(trace) <= trace
      ensures ok && !kept ==> forall i :: 0 <= i < |t.leases| ==> IsReleased(ledger, t.leases[i].key)
      ensures ok && kept ==> exists e <- t.leases :: ShownMapped(trace, e.key.name)
      ensures ok ==> forall k :: Settled(old(ledger), k) ==> Settled(ledger, k)
      ensures ok ==> (kept <==> AnyMapped(t.leases, ports))
      ensures Ran(Now(), ok) == Each(old(Now()), LeaseActions(t.leases, ports))
    {
      hide Orderly, Sound, ShownMapped, Unmapped, LeaseActions, LeaseActionFor, Each;
      ghost var at := |trace|;
      ghost var before := trace;
      Note(ListedPorts(ports));
      StillQuiet(at, before);
      hide Quiet, Settled;
      ok, kept := true, false;
      assert t.leases[0..] == t.leases;
      for i := 0 to |t.leases|
        invariant ok && Valid() && PortsListed(at, ports) && before <= trace
        invariant !kept ==> forall j :: 0 <= j < i ==> IsReleased(ledger, t.leases[j].key)
        invariant kept ==> exists e <- t.leases :: ShownMapped(trace, e.key.name)
        invariant kept <==> exists j :: 0 <= j < i && t.leases[j].state != Released && !Unmapped(t.leases[j], ports)
        invariant forall k :: Settled(old(ledger), k) ==> Settled(ledger, k)
        invariant Each(old(Now()), LeaseActions(t.leases, ports)) == Each(Now(), LeaseActions(t.leases[i..], ports))
      {
        var e := t.leases[i];
        assert e in t.leases;
        LeasesStep(Now(), t.leases, i, ports);
        if e.state == Released {
          assert ReleasedBy(start, trace, e.key);
          continue;
        }
        ghost var now := trace;
        var mapped;
        ok, mapped := DoLease(e, at, ports);
        if !ok { return; }
        if kept {
          ghost var x :| x in t.leases && ShownMapped(now, x.key.name);
          StillMapped(now, x.key.name);
        }
        kept := kept || mapped;
      }
      EachNothing(Now());
      NoActions([], [], ports);
      assert t.leases[|t.leases|..] == [];
    }

    lemma StillMapped(before: seq<Event>, name: string)
      requires before <= trace && ShownMapped(before, name)
      ensures ShownMapped(trace, name)
    {
      hide PortOf;
      if PortOf(name).Some? {
        var j :| 0 <= j < |before| && before[j].ListedPorts? && PortOf(name).value in before[j].ports;
        assert trace[j] == before[j];
      }
    }

    // ---------------------------------------------------------------- the whole

    /** Everything has its result: containers and leases are released, and so is every image no container uses. */
    ghost predicate AllDone()
      reads this
    {
      && (forall i :: 0 <= i < |t.containers| ==> IsReleased(ledger, t.containers[i].key))
      && (forall i :: 0 <= i < |t.leases| ==> IsReleased(ledger, t.leases[i].key))
      && (forall i :: 0 <= i < |t.images| ==>
            IsReleased(ledger, t.images[i].key)
            || (t.images[i].id.Some? && ShownUsed(trace, t.images[i].id.value)))
    }

    /** Why it is not complete: a result on record that is no release, or a port that is still mapped. */
    ghost predicate HasReason()
      reads this
    {
      SomethingBad(ledger) || exists e <- t.leases :: ShownMapped(trace, e.key.name)
    }

    /** Nothing is left to do, or something may not be touched. */
    method MayStart() returns (no: Option<Verdict>)
      requires OfThisLedger(t, start)
      ensures no == StartOf(t)
      ensures no.None? ==> forall e <- t.containers + t.images :: e.state != Released ==> e.id.Some?
      ensures no == Some(NothingToDo) ==> forall e <- t.containers + t.images + t.leases :: IsReleased(start, e.key)
    {
      var all := t.containers + t.images + t.leases;
      if forall i | 0 <= i < |all| :: all[i].state == Released {
        return Some(NothingToDo);
      }
      if exists i | 0 <= i < |all| :: all[i].state == Refused {
        return Some(RefusedToStart);
      }
      var docker := t.containers + t.images;
      if exists i | 0 <= i < |docker| :: docker[i].state != Released && docker[i].id.None? {
        return Some(RefusedToStart);
      }
      no := None;
    }

    /** What the next phase waits for. */
    method ContainersReleased() returns (gone: bool)
      requires Valid()
      ensures gone == AllIn(ledger, t.containers)
      ensures gone <==> ContainersGone(t, start, trace)
    {
      hide Orderly, Sound, OfThisLedger, ReleasedBy;
      gone := AllReleased(t.containers);
    }

    method Teardown(first: Option<seq<Observed>>, again: Option<seq<Observed>>, running: Option<seq<Running>>,
                    ports: Option<set<nat>>)
      returns (v: Verdict)
      requires Valid() && ledger == start && trace == []
      modifies this
      ensures Valid()
      ensures v == Complete ==> AllDone()
      ensures v == Incomplete ==> HasReason()
      ensures v in {NothingToDo, RefusedToStart} ==> trace == []
      ensures v == NothingToDo ==> forall e <- t.containers + t.images + t.leases :: IsReleased(start, e.key)
      ensures Ended(v, Now()) == TeardownOf(t, old(Now()), first, again, running, ports)
    {
      var no := MayStart();
      if no.Some? {
        return no.value;
      }
      if first.None? {
        return Stopped;
      }
      hide Orderly, Sound, ContainerActions, EachClean, RestOf, StartOf, ReleasedBy, Quiet, OfThisLedger, AllDone,
           AllIn, ContainersGone, TargetsOnly, Valid;
      var ok := RunAllContainers(first.value);
      if !ok {
        return Stopped;
      }
      var gone := ContainersReleased();
      if !gone {
        return Incomplete;
      }
      AllQuiet();
      v := RunRest(again, running, ports);
    }

    /** Phase 1: list, plan, and run. */
    method RunAllContainers(observed: seq<Observed>) returns (ok: bool)
      requires Valid() && ledger == start && trace == []
      requires forall e <- t.containers :: e.state != Released ==> e.id.Some?
      modifies this
      ensures Valid() && TargetsOnly()
      ensures ok ==> SomethingBad(ledger) || ContainersGone(t, start, trace)
      ensures Ran(Now(), ok) == EachClean(old(Now()), ContainerActions(t.containers, observed))
    {
      Note(ListedAll(observed));
      assert CleanSoFar() && TargetsOnly();
      hide Orderly, Sound, ContainerActions, EachClean, ReleasedBy, SomethingBad, TargetsOnly, Planned;
      var actions := PlanContainers(observed);
      ok := RunContainers(observed, actions);
      if forall i :: 0 <= i < |actions| ==> ReleasedBy(start, trace, actions[i].key) {
        AllContainers(actions, observed);
      }
    }

    /** With every action's container released, all are. */
    lemma AllContainers(actions: seq<Action>, observed: seq<Observed>)
      requires Valid() && actions == ContainerActions(t.containers, observed)
      requires forall e <- t.containers :: e.state != Released ==> e.id.Some?
      requires forall i :: 0 <= i < |actions| ==> ReleasedBy(start, trace, actions[i].key)
      ensures ContainersGone(t, start, trace)
    {
      hide Orderly, Sound, ReleasedBy;
      forall i | 0 <= i < |t.containers| ensures ReleasedBy(start, trace, t.containers[i].key) {
        var e := t.containers[i];
        assert e in t.containers && start[e.key] == e;
        if e.state == Released {
          assert IsReleased(start, e.key);
          ReleasedBefore(start, trace, e.key);
        } else {
          var k := HasAction(t.containers, observed, i);
        }
      }
    }

    /** Containers gone, and nothing but containers touched. */
    lemma AllQuiet()
      requires TargetsOnly() && ContainersGone(t, start, trace)
      ensures Quiet(|trace|)
    {
      hide ReleasedBy;
      forall i | 0 <= i < |trace| && TouchesContainer(trace[i]) ensures ReleasedBy(start, trace, trace[i].key) {
        var e :| e in t.containers && e.key == trace[i].key;
        var j :| 0 <= j < |t.containers| && t.containers[j] == e;
      }
    }

    /** Phase 2: nothing when no image is open. */
    method RunOpenImages(again: Option<seq<Observed>>, running: Option<seq<Running>>) returns (ok: bool)
      requires Valid() && ContainersGone(t, start, trace) && Quiet(|trace|)
      requires forall e <- t.images :: e.state != Released ==> e.id.Some?
      modifies this
      ensures Valid() && ContainersGone(t, start, trace) && Quiet(|trace|)
      ensures ok ==> forall i :: 0 <= i < |t.images| ==> ImageDone(t.images[i])
      ensures Ran(Now(), ok) == ImagesOf(t, old(Now()), again, running)
    {
      hide Orderly, Sound, ShownUsed, ReleasedBy, Quiet, Each, ImageActions;
      ReleasedAtStart();
      if exists i | 0 <= i < |t.images| :: t.images[i].state != Released {
        if again.None? || running.None? {
          return false;
        }
        ghost var before := trace;
        ok := RunImages(again.value, running.value);
        QuietNow(|before|);
      } else {
        ok := true;
      }
    }

    /** Phase 3: nothing when no lease is open. */
    method RunOpenLeases(ports: Option<set<nat>>) returns (ok: bool, kept: bool)
      requires Valid() && ContainersGone(t, start, trace) && Quiet(|trace|)
      modifies this
      ensures Valid() && ContainersGone(t, start, trace) && old(trace) <= trace
      ensures ok && !kept ==> forall i :: 0 <= i < |t.leases| ==> IsReleased(ledger, t.leases[i].key)
      ensures ok && kept ==> exists e <- t.leases :: ShownMapped(trace, e.key.name)
      ensures ok ==> forall k :: Settled(old(ledger), k) ==> Settled(ledger, k)
      ensures ok ==> (kept <==> ports.Some? && AnyMapped(t.leases, ports.value))
      ensures Ran(Now(), ok) == LeasesOf(t, old(Now()), ports)
    {
      hide Orderly, Sound, ShownMapped, ReleasedBy, Quiet, Each, LeaseActions, Unmapped;
      ReleasedAtStart();
      if exists i | 0 <= i < |t.leases| :: t.leases[i].state != Released {
        if ports.None? {
          return false, false;
        }
        ghost var before := trace;
        ok, kept := RunLeases(ports.value);
        QuietNow(|before|);
      } else {
        ok, kept := true, false;
      }
    }

    method RunRest(again: Option<seq<Observed>>, running: Option<seq<Running>>, ports: Option<set<nat>>)
      returns (v: Verdict)
      requires Valid() && ContainersGone(t, start, trace)
      requires Quiet(|trace|)
      requires forall e <- t.images :: e.state != Released ==> e.id.Some?
      modifies this
      ensures Valid() && v in {Stopped, Incomplete, Complete}
      ensures v == Complete ==> AllDone()
      ensures v == Incomplete ==> HasReason()
      ensures Ended(v, Now()) == RestOf(t, old(Now()), again, running, ports)
    {
      hide Orderly, Sound, ShownUsed, ShownMapped, ReleasedBy, Quiet, ImagesOf, LeasesOf, AnyMapped, AnyBad, Valid,
           AllDone;
      var ok := RunOpenImages(again, running);
      if !ok {
        return Stopped;
      }
      ghost var imaged := trace;
      ghost var done := ledger;
      var kept;
      ok, kept := RunOpenLeases(ports);
      if !ok {
        return Stopped;
      }
      if kept {
        return Incomplete;
      }
      v := Conclude(imaged, done);
    }

    /** The outcome, from the ledger alone. */
    method Conclude(ghost imaged: seq<Event>, ghost done: Ledger) returns (v: Verdict)
      requires Valid() && imaged <= trace && ContainersGone(t, start, trace)
      requires forall k :: Settled(done, k) ==> Settled(ledger, k)
      requires forall i :: 0 <= i < |t.images| ==>
                 Settled(done, t.images[i].key) || (t.images[i].id.Some? && ShownUsed(imaged, t.images[i].id.value))
      requires forall i :: 0 <= i < |t.leases| ==> IsReleased(ledger, t.leases[i].key)
      ensures v in {Incomplete, Complete} && (v == Complete ==> AllDone()) && (v == Incomplete ==> HasReason())
      ensures v == Incomplete <==> AnyBad(ledger, t.images)
    {
      hide Orderly, Sound, ShownUsed, ShownMapped, ReleasedBy;
      assert forall e <- t.images :: e.key in ledger;
      if exists i | 0 <= i < |t.images| :: Bad(ledger[t.images[i].key].state) {
        return Incomplete;
      }
      forall i | 0 <= i < |t.images|
        ensures IsReleased(ledger, t.images[i].key) || (t.images[i].id.Some? && ShownUsed(trace, t.images[i].id.value))
      {
        var e := t.images[i];
        if e.id.Some? && ShownUsed(imaged, e.id.value) {
          StillUsed(imaged, e.id.value);
        }
      }
      v := Complete;
    }

    lemma QuietNow(at: nat)
      requires Quiet(at)
      ensures Quiet(|trace|) && ContainersGone(t, start, trace)
    {
    }

    lemma ReleasedAtStart()
      requires Valid() && OfThisLedger(t, start)
      ensures forall e <- t.containers + t.images + t.leases :: e.state == Released ==> IsReleased(ledger, e.key)
      ensures forall i :: 0 <= i < |t.leases| && t.leases[i].state == Released ==> IsReleased(ledger, t.leases[i].key)
      ensures forall i :: 0 <= i < |t.images| && t.images[i].state == Released ==> IsReleased(ledger, t.images[i].key)
    {
      forall e <- t.containers + t.images + t.leases | e.state == Released ensures IsReleased(ledger, e.key) {
        assert IsReleased(start, e.key);
        assert ReleasedBy(start, trace, e.key);
      }
      assert forall i :: 0 <= i < |t.leases| ==> t.leases[i] in t.containers + t.images + t.leases;
      assert forall i :: 0 <= i < |t.images| ==> t.images[i] in t.containers + t.images + t.leases;
    }

    /** The action's own events leave it in order. */
    lemma Follows(a: Action, before: seq<Event>, now: seq<Event>)
      requires before <= now && forall i :: |before| <= i < |now| ==> Touches(now[i]) && now[i].key == a.key
      requires InOrder(t, start, before, Attempt(a.key))
      requires a.RemoveIt? ==> InOrder(t, start, before, Asked(a.key, a.id))
      requires a.MarkAbsent? ==> ShownAbsent(start, before, a.key)
      ensures forall o :: MayBeGone(start, now, a.key, o) ==> InOrder(t, start, now, Settle(a.key, o))
      ensures a.RemoveIt? ==> InOrder(t, start, now, Asked(a.key, a.id))
      ensures a.MarkAbsent? ==> MayBeGone(start, now, a.key, AlreadyAbsent)
    {
      Longer(start, before, now);
      LaterOurs(start, before, now, a.key, if a.RemoveIt? then a.id else "");
      if a.key.kind == PortLease {
        LaterPorts(before, now, a.key.name);
      }
      if a.RemoveIt? && a.key.kind == Image {
        LaterUnused(before, now, a.id);
      }
    }
  }
}
