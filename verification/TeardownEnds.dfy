/** When a teardown ends early, and when it completes: laws of what `Teardown.Command` is proved to compute. */
module TeardownEnds {
  import opened Bytes
  import opened Teardown

  // ---------------------------------------------------------------- which action an object gets

  /** Exactly how an open entry is listed decides what is done about it. */
  lemma ActionIsRight(e: Entry, observed: seq<Observed>)
    requires e.state != Released && e.id.Some?
    ensures ActionFor(e, observed) == [RemoveIt(e.key, e.id.value)] <==> ListedAsOurs(e, observed)
    ensures ActionFor(e, observed) == [MarkAbsent(e.key)] <==> NotListed(e, observed)
    ensures ActionFor(e, observed) == [RefuseIt(e.key)] <==> !ListedAsOurs(e, observed) && !NotListed(e, observed)
  {
    LocateIff(e, observed);
    hide Locate, ListedAsOurs, NotListed;
    var l := Locate(e, observed);
    assert |ActionFor(e, observed)| == 1;
    assert ActionFor(e, observed)[0].RemoveIt? <==> l.Ours?;
    assert ActionFor(e, observed)[0].MarkAbsent? <==> l.Absent?;
  }

  // ---------------------------------------------------------------- one action

  /** The journal takes every record. */
  predicate Works(writes: seq<bool>) {
    forall i :: 0 <= i < |writes| ==> writes[i]
  }

  /** Every answer of Docker is that the object is gone. */
  predicate AllGone(answers: seq<Answer>) {
    forall i :: 0 <= i < |answers| ==> answers[i] in {DidRemove, WasAbsent}
  }

  /** An attempt on the entry is allowed. */
  predicate MayTry(l: Ledger, k: Key) {
    k in l && l[k].state !in {Released, Refused}
  }

  /** What an answer of Docker makes of an entry. */
  function Resulting(answers: seq<Answer>, e: Entry): EntryState {
    if answers == [] then CleanupFailed
    else
      match answers[0]
      case DidRemove => Released
      case WasAbsent => Released
      case Refusal => Refused
      case Conflict => if e.key.kind == Image && e.retain && e.id.Some? then CleanupConflict else CleanupFailed
      case Error => CleanupFailed
  }

  /** An action on an entry that may be tried is carried out whenever its records are written, and touches no other. */
  lemma DoneIs(s: Sim, a: Action)
    requires Works(s.writes) && MayTry(s.ledger, a.key)
    ensures var r := Done(s, a);
            && r.ok && Works(r.sim.writes)
            && r.sim.answers == (if a.RemoveIt? then Rest(s.answers) else s.answers)
            && (forall k <- s.ledger :: k != a.key ==> k in r.sim.ledger && r.sim.ledger[k] == s.ledger[k])
            && a.key in r.sim.ledger
            && r.sim.ledger[a.key].state == match a
                                            case RemoveIt(_, _) => Resulting(s.answers, s.ledger[a.key])
                                            case RefuseIt(_) => Refused
                                            case _ => Released
  {
    assert Works(Rest(s.writes)) && Works(Rest(Rest(s.writes)));
  }

  // ---------------------------------------------------------------- many actions

  /** Each action is for another entry, and each may be tried. */
  predicate Able(l: Ledger, actions: seq<Action>) {
    && (forall i, j :: 0 <= i < j < |actions| ==> actions[i].key != actions[j].key)
    && forall a <- actions :: MayTry(l, a.key)
  }

  /** Nothing but these entries has changed. */
  ghost predicate Only(before: Ledger, now: Ledger, actions: seq<Action>) {
    forall k <- before :: (forall a <- actions :: a.key != k) ==> k in now && now[k] == before[k]
  }

  /** Docker removes what it is asked to, as often as it will be. */
  predicate Obliges(s: Sim, n: nat) {
    Works(s.writes) && AllGone(s.answers) && |s.answers| >= n
  }

  /** How often Docker is asked. */
  function Asks(actions: seq<Action>): nat {
    if actions == [] then 0 else (if actions[0].RemoveIt? then 1 else 0) + Asks(actions[1..])
  }

  lemma {:induction false} AsksAtMost(actions: seq<Action>)
    ensures Asks(actions) <= |actions|
    ensures (forall a <- actions :: !a.RemoveIt?) ==> Asks(actions) == 0
  {
    if actions != [] {
      AsksAtMost(actions[1..]);
      assert forall a <- actions[1..] :: a in actions;
    }
  }

  lemma NoneIsFirst(l: Ledger, actions: seq<Action>)
    requires actions != [] && Able(l, actions)
    ensures forall a <- actions[1..] :: a in actions && a.key != actions[0].key
  {
  }

  lemma AbleLater(s: Sim, actions: seq<Action>, n: nat)
    requires actions != [] && Works(s.writes) && Able(s.ledger, actions)
    ensures Done(s, actions[0]).ok && Works(Done(s, actions[0]).sim.writes)
    ensures Able(Done(s, actions[0]).sim.ledger, actions[1..])
    ensures Only(s.ledger, Done(s, actions[0]).sim.ledger, [actions[0]])
    ensures Obliges(s, n + if actions[0].RemoveIt? then 1 else 0) ==> Obliges(Done(s, actions[0]).sim, n)
    ensures Obliges(s, n + if actions[0].RemoveIt? then 1 else 0) && !actions[0].RefuseIt? ==>
              IsReleased(Done(s, actions[0]).sim.ledger, actions[0].key)
  {
    DoneIs(s, actions[0]);
    NoneIsFirst(s.ledger, actions);
    hide Done;
    assert AllGone(s.answers) ==> AllGone(Rest(s.answers));
  }

  lemma OnlyJoin(a: Ledger, b: Ledger, c: Ledger, first: Action, more: seq<Action>)
    requires Only(a, b, [first]) && Only(b, c, more)
    ensures Only(a, c, [first] + more)
  {
    forall k | k in a && (forall x <- [first] + more :: x.key != k) ensures k in c && c[k] == a[k] {
      assert first in [first] + more && forall x <- more :: x in [first] + more;
      assert forall x <- [first] :: x.key != k;
    }
  }

  /** Actions on entries that may be tried are all carried out; and when Docker obliges, all come out released. */
  lemma {:induction false} EachIs(s: Sim, actions: seq<Action>, n: nat)
    requires Works(s.writes) && Able(s.ledger, actions)
    ensures Each(s, actions).ok && Works(Each(s, actions).sim.writes)
    ensures Only(s.ledger, Each(s, actions).sim.ledger, actions)
    ensures Obliges(s, Asks(actions) + n) && (forall a <- actions :: !a.RefuseIt?) ==>
              && Obliges(Each(s, actions).sim, n)
              && forall a <- actions :: IsReleased(Each(s, actions).sim.ledger, a.key)
    decreases |actions|
  {
    if actions != [] {
      var r, rest, t := Done(s, actions[0]).sim, actions[1..], Each(s, actions).sim;
      AbleLater(s, actions, Asks(rest) + n);
      assert Each(s, actions) == Each(r, rest) && actions == [actions[0]] + rest;
      hide Done, Each, Able;
      EachIs(r, rest, n);
      OnlyJoin(s.ledger, r.ledger, t.ledger, actions[0], rest);
      assert forall a <- rest :: a.key != actions[0].key;
    }
  }

  /** The same with the first unclean one ending it; every record is written, so it is `ok` all the same. */
  lemma {:induction false} EachCleanIs(s: Sim, actions: seq<Action>, n: nat)
    requires Works(s.writes) && Able(s.ledger, actions)
    ensures EachClean(s, actions).ok && Works(EachClean(s, actions).sim.writes)
    ensures Only(s.ledger, EachClean(s, actions).sim.ledger, actions)
    ensures Obliges(s, Asks(actions) + n) && (forall a <- actions :: !a.RefuseIt?) ==>
              && Obliges(EachClean(s, actions).sim, n)
              && forall a <- actions :: IsReleased(EachClean(s, actions).sim.ledger, a.key)
    decreases |actions|
  {
    if actions != [] {
      var r, rest, t := Done(s, actions[0]).sim, actions[1..], EachClean(s, actions).sim;
      AbleLater(s, actions, Asks(rest) + n);
      hide Done;
      assert actions == [actions[0]] + rest;
      if IsReleased(r.ledger, actions[0].key) {
        EachCleanIs(r, rest, n);
        assert EachClean(s, actions) == EachClean(r, rest);
        hide EachClean;
        OnlyJoin(s.ledger, r.ledger, t.ledger, actions[0], rest);
        assert forall a <- rest :: a.key != actions[0].key;
      } else {
        assert actions[0] in actions;
      }
    }
  }

  // ---------------------------------------------------------------- the planned actions

  predicate Tryable(l: Ledger, entries: seq<Entry>) {
    forall e <- entries :: e.state != Released ==> MayTry(l, e.key)
  }

  /** The open entries can be located. */
  predicate HaveReceipts(entries: seq<Entry>) {
    forall e <- entries :: e.state != Released ==> e.id.Some?
  }

  /** Actions for entries among these, each for another one and none for a released one. */
  ghost predicate For(actions: seq<Action>, entries: seq<Entry>) {
    && (forall i, j :: 0 <= i < j < |actions| ==> actions[i].key != actions[j].key)
    && forall a <- actions :: exists e <- entries :: e.key == a.key && e.state != Released
  }

  lemma ForIsAble(l: Ledger, actions: seq<Action>, entries: seq<Entry>)
    requires For(actions, entries) && Tryable(l, entries)
    ensures Able(l, actions)
  {
  }

  lemma NotTheFirst(rest: seq<Action>, entries: seq<Entry>)
    requires entries != [] && Distinct(entries) && For(rest, entries[1..])
    ensures forall a <- rest :: a.key != entries[0].key
  {
    forall a | a in rest ensures a.key != entries[0].key {
      var e :| e in entries[1..] && e.key == a.key;
      var k :| 0 <= k < |entries[1..]| && entries[1..][k] == e;
      assert entries[k + 1] == e;
    }
  }

  lemma ForMore(one: seq<Action>, rest: seq<Action>, entries: seq<Entry>)
    requires entries != [] && Distinct(entries) && For(rest, entries[1..])
    requires |one| <= 1 && (one != [] ==> one[0].key == entries[0].key && entries[0].state != Released)
    ensures For(one + rest, entries)
  {
    var all := one + rest;
    NotTheFirst(rest, entries);
    forall a | a in all ensures exists e <- entries :: e.key == a.key && e.state != Released {
      if a in rest {
        var e :| e in entries[1..] && e.key == a.key && e.state != Released;
        assert e in entries;
      } else {
        assert entries[0] in entries;
      }
    }
  }

  lemma DistinctRest(entries: seq<Entry>)
    requires entries != [] && Distinct(entries)
    ensures Distinct(entries[1..])
  {
  }

  /** How many entries are open. */
  function Open(entries: seq<Entry>): nat {
    if entries == [] then 0 else (if entries[0].state == Released then 0 else 1) + Open(entries[1..])
  }

  lemma {:induction false} ContainersFor(entries: seq<Entry>, observed: seq<Observed>)
    requires Distinct(entries) && HaveReceipts(entries)
    ensures var actions := ContainerActions(entries, observed);
            && For(actions, entries) && |actions| == Open(entries)
            && ((forall e <- entries :: e.state != Released ==> ListedAsOurs(e, observed) || NotListed(e, observed)) ==>
                  forall a <- actions :: !a.RefuseIt?)
    decreases |entries|
  {
    if entries != [] {
      DistinctRest(entries);
      ContainersFor(entries[1..], observed);
      var e := entries[0];
      if e.state != Released {
        ActionIsRight(e, observed);
        OneAction(e, observed);
      }
      hide ListedAsOurs, NotListed, ActionFor, For, Distinct;
      ForMore(ActionFor(e, observed), ContainerActions(entries[1..], observed), entries);
      assert ActionFor(e, observed) == [] || e.state != Released by { NoneForReleased(e, observed); }
    }
  }

  lemma NoneForReleased(e: Entry, observed: seq<Observed>)
    ensures e.state == Released ==> ActionFor(e, observed) == []
    ensures |ActionFor(e, observed)| <= 1
    ensures ActionFor(e, observed) != [] ==> ActionFor(e, observed)[0].key == e.key
  {
    hide Locate;
  }

  lemma OneAction(e: Entry, observed: seq<Observed>)
    requires e.state != Released && e.id.Some?
    ensures |ActionFor(e, observed)| == 1 && ActionFor(e, observed)[0].key == e.key
  {
    LocateIff(e, observed);
    hide Locate, ListedAsOurs, NotListed;
  }

  /** The image is gone, or it is this deployment's and no container uses it. */
  ghost predicate Removable(e: Entry, observed: seq<Observed>, running: seq<Running>) {
    NotListed(e, observed) || (ListedAsOurs(e, observed) && e.id.Some? && !Uses(running, e.id.value))
  }

  /** An open entry has its action among these. */
  ghost predicate Covers(actions: seq<Action>, entries: seq<Entry>) {
    forall e <- entries :: e.state != Released ==> exists a <- actions :: a.key == e.key
  }

  lemma CoversMore(one: seq<Action>, rest: seq<Action>, entries: seq<Entry>)
    requires entries != [] && Covers(rest, entries[1..])
    requires entries[0].state != Released ==> one != [] && one[0].key == entries[0].key
    ensures Covers(one + rest, entries)
  {
    forall e | e in entries && e.state != Released ensures exists a <- one + rest :: a.key == e.key {
      if e == entries[0] {
        assert one[0] in one + rest;
      } else {
        assert e in entries[1..];
        var a :| a in rest && a.key == e.key;
        assert a in one + rest;
      }
    }
  }

  lemma {:induction false} ImagesFor(entries: seq<Entry>, observed: seq<Observed>, running: seq<Running>)
    requires Distinct(entries) && HaveReceipts(entries)
    ensures For(ImageActions(entries, observed, running), entries)
    ensures |ImageActions(entries, observed, running)| <= Open(entries)
    decreases |entries|
  {
    if entries != [] {
      DistinctRest(entries);
      ReceiptsRest(entries);
      ImagesFor(entries[1..], observed, running);
      OneImage(entries[0], observed, running);
      hide ImageActionFor, For, Distinct, HaveReceipts;
      ForMore(ImageActionFor(entries[0], observed, running), ImageActions(entries[1..], observed, running), entries);
    }
  }

  ghost predicate AllRemovable(entries: seq<Entry>, observed: seq<Observed>, running: seq<Running>) {
    forall e <- entries :: e.state != Released ==> Removable(e, observed, running)
  }

  lemma {:induction false} ImagesCovered(entries: seq<Entry>, observed: seq<Observed>, running: seq<Running>)
    requires HaveReceipts(entries) && AllRemovable(entries, observed, running)
    ensures Covers(ImageActions(entries, observed, running), entries)
    ensures forall a <- ImageActions(entries, observed, running) :: !a.RefuseIt?
    decreases |entries|
  {
    if entries != [] {
      ReceiptsRest(entries);
      assert AllRemovable(entries[1..], observed, running) by { assert forall x <- entries[1..] :: x in entries; }
      assert entries[0] in entries;
      ImagesCovered(entries[1..], observed, running);
      OneImage(entries[0], observed, running);
      hide ImageActionFor, Covers, HaveReceipts, Removable;
      CoversMore(ImageActionFor(entries[0], observed, running), ImageActions(entries[1..], observed, running), entries);
    }
  }

  lemma ReceiptsRest(entries: seq<Entry>)
    requires entries != [] && HaveReceipts(entries)
    ensures HaveReceipts(entries[1..]) && (entries[0].state != Released ==> entries[0].id.Some?)
  {
    assert entries[0] in entries && forall x <- entries[1..] :: x in entries;
  }

  lemma OneImage(e: Entry, observed: seq<Observed>, running: seq<Running>)
    requires e.state != Released ==> e.id.Some?
    ensures var one := ImageActionFor(e, observed, running);
            && |one| <= 1 && (one != [] ==> one[0].key == e.key && e.state != Released)
            && (e.state != Released && Removable(e, observed, running) ==> one != [] && !one[0].RefuseIt?)
  {
    NoneForReleased(e, observed);
    if e.state != Released {
      ActionIsRight(e, observed);
      OneAction(e, observed);
      LocateIff(e, observed);
      BothWays(e, observed);
    }
    hide ListedAsOurs, NotListed, Locate;
  }

  lemma BothWays(e: Entry, observed: seq<Observed>)
    ensures !(ListedAsOurs(e, observed) && NotListed(e, observed))
  {
  }

  lemma {:induction false} LeasesFor(entries: seq<Entry>, ports: set<nat>)
    requires Distinct(entries)
    ensures var actions := LeaseActions(entries, ports);
            && For(actions, entries) && (forall a <- actions :: a.ReleaseLease?)
            && ((forall e <- entries :: e.state != Released ==> Unmapped(e, ports)) ==> Covers(actions, entries))
    decreases |entries|
  {
    if entries != [] {
      DistinctRest(entries);
      LeasesFor(entries[1..], ports);
      var one, rest := LeaseActionFor(entries[0], ports), LeaseActions(entries[1..], ports);
      hide Unmapped, For, Distinct, Covers;
      ForMore(one, rest, entries);
      if forall e <- entries :: e.state != Released ==> Unmapped(e, ports) {
        assert forall e <- entries[1..] :: e in entries;
        assert entries[0] in entries;
        CoversMore(one, rest, entries);
      }
    }
  }

  // ---------------------------------------------------------------- the whole command

  /** The listings the command needs were given. */
  predicate Given(t: Targets, first: Option<seq<Observed>>, again: Option<seq<Observed>>, running: Option<seq<Running>>,
                  ports: Option<set<nat>>) {
    && first.Some?
    && (AnyOpen(t.images) ==> again.Some? && running.Some?)
    && (AnyOpen(t.leases) ==> ports.Some?)
  }

  /** And they show every open entry as this deployment's own and free, or as gone. */
  ghost predicate AllFree(t: Targets, first: Option<seq<Observed>>, again: Option<seq<Observed>>,
                          running: Option<seq<Running>>, ports: Option<set<nat>>) {
    && first.Some?
    && (forall e <- t.containers :: e.state != Released ==> ListedAsOurs(e, first.value) || NotListed(e, first.value))
    && (forall e <- t.images :: e.state != Released ==>
          again.Some? && running.Some? && Removable(e, again.value, running.value))
    && (forall e <- t.leases :: e.state != Released ==> ports.Some? && Unmapped(e, ports.value))
  }

  /** Nothing stands against a start: something is open, nothing was refused, and Docker's objects have receipts. */
  predicate CanStart(t: Targets) {
    && (exists e <- t.containers + t.images + t.leases :: e.state != Released)
    && (forall e <- t.containers + t.images + t.leases :: e.state != Refused)
    && HaveReceipts(t.containers) && HaveReceipts(t.images)
  }

  lemma StartIff(t: Targets)
    ensures StartOf(t).None? <==> CanStart(t)
    ensures StartOf(t) == Some(NothingToDo) <==> forall e <- t.containers + t.images + t.leases :: e.state == Released
  {
    var all := t.containers + t.images + t.leases;
    assert AnyOpen(all) <==> exists e <- all :: e.state != Released;
    assert forall e <- t.containers :: e in t.containers + t.images;
    assert forall e <- t.images :: e in t.containers + t.images;
  }

  lemma StartTryable(t: Targets, l: Ledger)
    requires CanStart(t) && OfThisLedger(t, l)
    ensures Tryable(l, t.containers) && Tryable(l, t.images) && Tryable(l, t.leases)
    ensures Distinct(t.containers) && Distinct(t.images) && Distinct(t.leases)
  {
    assert forall e <- t.containers :: e in t.containers + t.images + t.leases;
    assert forall e <- t.images :: e in t.containers + t.images + t.leases;
    assert forall e <- t.leases :: e in t.containers + t.images + t.leases;
  }

  /** The entries are as they were. */
  ghost predicate Same(before: Ledger, now: Ledger, entries: seq<Entry>) {
    forall o <- entries :: o.key in before ==> o.key in now && now[o.key] == before[o.key]
  }

  ghost predicate Apart(entries: seq<Entry>, others: seq<Entry>) {
    forall e <- entries, o <- others :: e.key != o.key
  }

  /** Actions on entries of one kind leave the others as they were. */
  lemma OthersStay(before: Ledger, now: Ledger, actions: seq<Action>, entries: seq<Entry>, others: seq<Entry>)
    requires Only(before, now, actions) && For(actions, entries) && Apart(entries, others)
    ensures Same(before, now, others)
  {
    forall o | o in others ensures forall a <- actions :: a.key != o.key {
      forall a | a in actions ensures a.key != o.key {
        var e :| e in entries && e.key == a.key;
      }
    }
  }

  lemma KindsApart(t: Targets, l: Ledger)
    requires OfThisLedger(t, l)
    ensures Apart(t.containers, t.images) && Apart(t.containers, t.leases) && Apart(t.images, t.leases)
    ensures Apart(t.images, t.containers) && Apart(t.leases, t.images) && Apart(t.leases, t.containers)
  {
  }

  lemma SameStays(before: Ledger, now: Ledger, entries: seq<Entry>)
    requires Same(before, now, entries)
    ensures Tryable(before, entries) ==> Tryable(now, entries)
    ensures ReleasedOnes(before, entries) ==> ReleasedOnes(now, entries)
    ensures AllReleased(before, entries) ==> AllReleased(now, entries)
  {
  }

  /** What was released at the start is released. */
  ghost predicate ReleasedOnes(l: Ledger, entries: seq<Entry>) {
    forall e <- entries :: e.state == Released ==> IsReleased(l, e.key)
  }

  ghost predicate AllReleased(l: Ledger, entries: seq<Entry>) {
    forall e <- entries :: IsReleased(l, e.key)
  }

  ghost predicate ImagesFree(t: Targets, again: Option<seq<Observed>>, running: Option<seq<Running>>) {
    forall e <- t.images :: e.state != Released ==>
      again.Some? && running.Some? && Removable(e, again.value, running.value)
  }

  ghost predicate LeasesFree(t: Targets, ports: Option<set<nat>>) {
    forall e <- t.leases :: e.state != Released ==> ports.Some? && Unmapped(e, ports.value)
  }

  /** A part carried out entry by entry: done in any case, and complete when it covers all and Docker obliges. */
  lemma PartEnds(s: Sim, actions: seq<Action>, entries: seq<Entry>, others: seq<Entry>, n: nat)
    requires Distinct(entries) && For(actions, entries) && Tryable(s.ledger, entries) && Works(s.writes)
    requires ReleasedOnes(s.ledger, entries) && Apart(entries, others)
    ensures var r := Each(s, actions);
            && r.ok && Works(r.sim.writes) && Same(s.ledger, r.sim.ledger, others)
            && (Obliges(s, Asks(actions) + n) && Covers(actions, entries) && (forall a <- actions :: !a.RefuseIt?) ==>
                  Obliges(r.sim, n) && AllReleased(r.sim.ledger, entries))
  {
    ForIsAble(s.ledger, actions, entries);
    hide *;
    EachIs(s, actions, n);
    OthersStay(s.ledger, Each(s, actions).sim.ledger, actions, entries, others);
    ReleasedAll(s.ledger, Each(s, actions).sim.ledger, actions, entries);
  }

  /** The images' part: carried out whenever it can be, and complete when all are free. */
  lemma ImagesEnd(t: Targets, s: Sim, again: Option<seq<Observed>>, running: Option<seq<Running>>, others: seq<Entry>,
                  n: nat)
    requires Distinct(t.images) && HaveReceipts(t.images) && Tryable(s.ledger, t.images) && Works(s.writes)
    requires AnyOpen(t.images) ==> again.Some? && running.Some?
    requires ReleasedOnes(s.ledger, t.images) && Apart(t.images, others)
    ensures var r := ImagesOf(t, s, again, running);
            && r.ok && Works(r.sim.writes)
            && Same(s.ledger, r.sim.ledger, others)
            && (Obliges(s, Open(t.images) + n) && ImagesFree(t, again, running) ==>
                  Obliges(r.sim, n) && AllReleased(r.sim.ledger, t.images))
  {
    if AnyOpen(t.images) {
      var actions := ImageActions(t.images, again.value, running.value);
      ImagesFor(t.images, again.value, running.value);
      if AllRemovable(t.images, again.value, running.value) {
        ImagesCovered(t.images, again.value, running.value);
      }
      hide Each, ImageActions, Removable, For, Only, Covers, Same, AllReleased, Tryable, ReleasedOnes, HaveReceipts;
      AsksAtMost(actions);
      PartEnds(s, actions, t.images, others, Open(t.images) + n - Asks(actions));
    } else {
      assert forall e <- t.images :: e.state == Released;
    }
  }

  /** What is covered and carried out is released, and what was released stays so. */
  lemma ReleasedAll(before: Ledger, now: Ledger, actions: seq<Action>, entries: seq<Entry>)
    requires Distinct(entries) && For(actions, entries) && Only(before, now, actions)
    requires ReleasedOnes(before, entries)
    ensures Covers(actions, entries) && (forall a <- actions :: IsReleased(now, a.key)) ==> AllReleased(now, entries)
  {
    forall e | e in entries && e.state == Released ensures IsReleased(now, e.key) {
      forall a | a in actions ensures a.key != e.key {
        var x :| x in entries && x.key == a.key && x.state != Released;
        var i :| 0 <= i < |entries| && entries[i] == x;
        var j :| 0 <= j < |entries| && entries[j] == e;
      }
    }
  }

  /** The leases' part. */
  lemma LeasesEnd(t: Targets, s: Sim, ports: Option<set<nat>>, others: seq<Entry>)
    requires Distinct(t.leases) && Tryable(s.ledger, t.leases) && Works(s.writes)
    requires AnyOpen(t.leases) ==> ports.Some?
    requires ReleasedOnes(s.ledger, t.leases) && Apart(t.leases, others)
    ensures var r := LeasesOf(t, s, ports);
            && r.ok && Works(r.sim.writes)
            && Same(s.ledger, r.sim.ledger, others)
            && (AllGone(s.answers) && LeasesFree(t, ports) ==> AllReleased(r.sim.ledger, t.leases))
  {
    if AnyOpen(t.leases) {
      var actions := LeaseActions(t.leases, ports.value);
      LeasesFor(t.leases, ports.value);
      hide Each, LeaseActions, Unmapped, For, Only, Covers, Same, AllReleased, Tryable, ReleasedOnes;
      AsksAtMost(actions);
      PartEnds(s, actions, t.leases, others, 0);
    } else {
      assert forall e <- t.leases :: e.state == Released;
    }
  }

  /** The containers' part. */
  lemma ContainersEnd(t: Targets, s: Sim, first: seq<Observed>, others: seq<Entry>, n: nat)
    requires Distinct(t.containers) && HaveReceipts(t.containers) && Tryable(s.ledger, t.containers) && Works(s.writes)
    requires ReleasedOnes(s.ledger, t.containers) && Apart(t.containers, others)
    ensures var r := EachClean(s, ContainerActions(t.containers, first));
            && r.ok && Works(r.sim.writes)
            && Same(s.ledger, r.sim.ledger, others)
            && (Obliges(s, Open(t.containers) + n)
                && (forall e <- t.containers :: e.state != Released ==>
                      ListedAsOurs(e, first) || NotListed(e, first)) ==>
                  Obliges(r.sim, n) && AllReleased(r.sim.ledger, t.containers))
  {
    var actions := ContainerActions(t.containers, first);
    ContainersFor(t.containers, first);
    ContainersCovered(t.containers, first);
    ForIsAble(s.ledger, actions, t.containers);
    AsksAtMost(actions);
    EachCleanIs(s, actions, n);
    hide EachClean, ContainerActions, ListedAsOurs, NotListed, For, Only, Covers, Same;
    OthersStay(s.ledger, EachClean(s, actions).sim.ledger, actions, t.containers, others);
    ReleasedAll(s.ledger, EachClean(s, actions).sim.ledger, actions, t.containers);
  }

  lemma {:induction false} ContainersCovered(entries: seq<Entry>, observed: seq<Observed>)
    requires HaveReceipts(entries)
    ensures Covers(ContainerActions(entries, observed), entries)
  {
    if entries != [] {
      var e := entries[0];
      assert HaveReceipts(entries[1..]) by { assert forall x <- entries[1..] :: x in entries; }
      assert e in entries;
      ContainersCovered(entries[1..], observed);
      if e.state != Released { OneAction(e, observed); }
      hide ActionFor;
      CoversMore(ActionFor(e, observed), ContainerActions(entries[1..], observed), entries);
    }
  }

  /**
    With every record written and every listing given, a command that may start is never cut short: it says that it is
    complete, or that it is not.
   */
  lemma NeverCutShort(t: Targets, s: Sim, first: Option<seq<Observed>>, again: Option<seq<Observed>>,
                      running: Option<seq<Running>>, ports: Option<set<nat>>)
    requires OfThisLedger(t, s.ledger) && CanStart(t) && Works(s.writes) && Given(t, first, again, running, ports)
    ensures TeardownOf(t, s, first, again, running, ports).verdict in {Complete, Incomplete}
  {
    Ends(t, s, first, again, running, ports);
  }

  /**
    And it completes: when every open object is listed as this deployment's own and free, or as gone, no open lease's
    port is mapped, Docker removes what it is asked to and every record is written, then everything is released.
   */
  lemma CompletesWhenFree(t: Targets, s: Sim, first: Option<seq<Observed>>, again: Option<seq<Observed>>,
                          running: Option<seq<Running>>, ports: Option<set<nat>>)
    requires OfThisLedger(t, s.ledger) && CanStart(t) && Given(t, first, again, running, ports)
    requires AllFree(t, first, again, running, ports) && Obliges(s, Open(t.containers) + Open(t.images))
    ensures var end := TeardownOf(t, s, first, again, running, ports);
            && end.verdict == Complete
            && forall e <- t.containers + t.images + t.leases :: IsReleased(end.sim.ledger, e.key)
  {
    Ends(t, s, first, again, running, ports);
  }

  lemma TeardownIs(t: Targets, s: Sim, first: Option<seq<Observed>>, again: Option<seq<Observed>>,
                   running: Option<seq<Running>>, ports: Option<set<nat>>)
    requires CanStart(t) && first.Some?
    ensures var c := EachClean(s, ContainerActions(t.containers, first.value));
            c.ok ==> TeardownOf(t, s, first, again, running, ports)
                     == if AllIn(c.sim.ledger, t.containers) then RestOf(t, c.sim, again, running, ports)
                        else Ended(Incomplete, c.sim)
  {
    StartIff(t);
    hide CanStart, StartOf, EachClean, ContainerActions, AllIn, RestOf;
  }

  lemma GivenToRest(t: Targets, first: Option<seq<Observed>>, again: Option<seq<Observed>>,
                    running: Option<seq<Running>>, ports: Option<set<nat>>)
    requires Given(t, first, again, running, ports)
    ensures AnyOpen(t.images) ==> again.Some? && running.Some?
    ensures AnyOpen(t.leases) ==> ports.Some?
    ensures AllFree(t, first, again, running, ports) ==>
              && ImagesFree(t, again, running) && LeasesFree(t, ports)
              && forall e <- t.containers :: e.state != Released ==>
                   ListedAsOurs(e, first.value) || NotListed(e, first.value)
  {
    hide Removable, Unmapped, ListedAsOurs, NotListed;
  }

  lemma AllThree(l: Ledger, a: seq<Entry>, b: seq<Entry>, c: seq<Entry>)
    ensures AllReleased(l, a) && AllReleased(l, b) && AllReleased(l, c) ==>
              forall e <- a + b + c :: IsReleased(l, e.key)
  {
  }

  /** Both, from the parts. */
  lemma Ends(t: Targets, s: Sim, first: Option<seq<Observed>>, again: Option<seq<Observed>>,
             running: Option<seq<Running>>, ports: Option<set<nat>>)
    requires OfThisLedger(t, s.ledger) && CanStart(t) && Works(s.writes) && Given(t, first, again, running, ports)
    ensures var end := TeardownOf(t, s, first, again, running, ports);
            && end.verdict in {Complete, Incomplete}
            && (AllFree(t, first, again, running, ports) && Obliges(s, Open(t.containers) + Open(t.images)) ==>
                  && end.verdict == Complete
                  && forall e <- t.containers + t.images + t.leases :: IsReleased(end.sim.ledger, e.key))
  {
    assert first.Some? && HaveReceipts(t.containers) && HaveReceipts(t.images);
    TeardownIs(t, s, first, again, running, ports);
    var c := EachClean(s, ContainerActions(t.containers, first.value));
    hide *;
    StartTryable(t, s.ledger);
    KindsApart(t, s.ledger);
    ReleasedAtFirst(t, s.ledger);
    GivenToRest(t, first, again, running, ports);
    ApartBoth(t.containers, t.images, t.leases);
    ContainersEnd(t, s, first.value, t.images + t.leases, Open(t.images));
    SameBoth(s.ledger, c.sim.ledger, t.images, t.leases);
    SameStays(s.ledger, c.sim.ledger, t.images);
    SameStays(s.ledger, c.sim.ledger, t.leases);
    RestEnds(t, c.sim, again, running, ports);
    AllInIs(c.sim.ledger, t.containers);
    AllThree(TeardownOf(t, s, first, again, running, ports).sim.ledger, t.containers, t.images, t.leases);
  }

  lemma ReleasedAtFirst(t: Targets, l: Ledger)
    requires OfThisLedger(t, l)
    ensures ReleasedOnes(l, t.containers) && ReleasedOnes(l, t.images) && ReleasedOnes(l, t.leases)
  {
  }

  lemma AllInIs(l: Ledger, entries: seq<Entry>)
    ensures AllReleased(l, entries) <==> AllIn(l, entries)
  {
    assert forall i :: 0 <= i < |entries| ==> entries[i] in entries;
  }

  lemma NoneBad(l: Ledger, entries: seq<Entry>)
    requires AllReleased(l, entries)
    ensures !AnyBad(l, entries)
  {
    assert forall i :: 0 <= i < |entries| ==> entries[i] in entries;
  }

  lemma NoneMapped(t: Targets, ports: Option<set<nat>>)
    requires LeasesFree(t, ports)
    ensures ports.Some? ==> !AnyMapped(t.leases, ports.value)
  {
    hide Unmapped;
    assert forall i :: 0 <= i < |t.leases| ==> t.leases[i] in t.leases;
  }

  lemma RestEnds(t: Targets, s: Sim, again: Option<seq<Observed>>, running: Option<seq<Running>>,
                 ports: Option<set<nat>>)
    requires Distinct(t.images) && HaveReceipts(t.images) && Tryable(s.ledger, t.images) && Works(s.writes)
    requires Distinct(t.leases) && Tryable(s.ledger, t.leases)
    requires AnyOpen(t.images) ==> again.Some? && running.Some?
    requires AnyOpen(t.leases) ==> ports.Some?
    requires ReleasedOnes(s.ledger, t.images) && ReleasedOnes(s.ledger, t.leases)
    requires Apart(t.images, t.leases) && Apart(t.leases, t.images)
    requires Apart(t.images, t.containers) && Apart(t.leases, t.containers)
    ensures var end := RestOf(t, s, again, running, ports);
            && end.verdict in {Complete, Incomplete}
            && (Obliges(s, Open(t.images)) && ImagesFree(t, again, running) && LeasesFree(t, ports) ==>
                  && end.verdict == Complete
                  && AllReleased(end.sim.ledger, t.images) && AllReleased(end.sim.ledger, t.leases))
            && (AllReleased(s.ledger, t.containers) ==> AllReleased(end.sim.ledger, t.containers))
  {
    RestIs(t, s, again, running, ports);
    var i := ImagesOf(t, s, again, running);
    var l := LeasesOf(t, i.sim, ports);
    assert Obliges(i.sim, 0) ==> AllGone(i.sim.answers);
    assert Open(t.images) + 0 == Open(t.images);
    hide *;
    ApartBoth(t.images, t.leases, t.containers);
    ImagesEnd(t, s, again, running, t.leases + t.containers, 0);
    SameBoth(s.ledger, i.sim.ledger, t.leases, t.containers);
    SameStays(s.ledger, i.sim.ledger, t.leases);
    SameStays(s.ledger, i.sim.ledger, t.containers);
    ApartBoth(t.leases, t.images, t.containers);
    LeasesEnd(t, i.sim, ports, t.images + t.containers);
    SameBoth(i.sim.ledger, l.sim.ledger, t.images, t.containers);
    SameStays(i.sim.ledger, l.sim.ledger, t.images);
    SameStays(i.sim.ledger, l.sim.ledger, t.containers);
    if AllReleased(l.sim.ledger, t.images) { NoneBad(l.sim.ledger, t.images); }
    if LeasesFree(t, ports) { NoneMapped(t, ports); }
  }

  lemma ApartBoth(entries: seq<Entry>, a: seq<Entry>, b: seq<Entry>)
    requires Apart(entries, a) && Apart(entries, b)
    ensures Apart(entries, a + b)
  {
  }

  lemma SameBoth(before: Ledger, now: Ledger, a: seq<Entry>, b: seq<Entry>)
    requires Same(before, now, a + b)
    ensures Same(before, now, a) && Same(before, now, b)
  {
    assert forall e <- a :: e in a + b;
    assert forall e <- b :: e in a + b;
  }

  /** When both parts are carried out. */
  lemma RestIs(t: Targets, s: Sim, again: Option<seq<Observed>>, running: Option<seq<Running>>, ports: Option<set<nat>>)
    ensures var i := ImagesOf(t, s, again, running);
            var l := LeasesOf(t, i.sim, ports);
            i.ok && l.ok ==>
              RestOf(t, s, again, running, ports)
              == Ended(if (ports.Some? && AnyMapped(t.leases, ports.value)) || AnyBad(l.sim.ledger, t.images)
                       then Incomplete else Complete, l.sim)
  {
    hide ImagesOf, LeasesOf, AnyMapped, AnyBad;
  }
}
