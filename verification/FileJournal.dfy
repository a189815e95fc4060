/**
  `FileJournal` itself (deploy-journal/src/lib.rs): the handle's code over a file whose operations may fail, each method
  a run of the state machine of `WalRuns`, so that the crash theorem holds at every point inside it.
 */
module FileJournal {
  import opened Bytes
  import opened JournalFormat
  import opened WalRuns
  import WalSafety

  /** The storage seam. Each operation may fail; what it then did to the file is up to the disk. */
  class FileWal {
    var content: Text
    ghost var survivors: iset<Text>
    ghost var entry: bool

    ghost function State(): Disk
      reads this
    {
      Disk(content, survivors, entry)
    }

    method Append(bytes: Text) returns (ok: bool, ghost k: nat)
      modifies this
      ensures k <= |bytes| && (ok ==> k == |bytes|)
      ensures State() == Appended(old(State()), bytes, k)
    {
      var n: nat :| n <= |bytes|;
      ok := *;
      if ok { n := |bytes|; }
      k := n;
      survivors := survivors + iset i | 0 <= i <= n :: content + bytes[..i];
      content := content + bytes[..n];
    }

    method Sync() returns (ok: bool)
      modifies this
      ensures State() == if ok then Synced(old(State())) else old(State())
    {
      ok := *;
      if ok { survivors := iset{content}; }
    }

    method Truncate(len: nat) returns (ok: bool, ghost cut: bool)
      requires len <= |content|
      modifies this
      ensures ok ==> cut
      ensures State() == if cut then Truncated(old(State()), len) else old(State())
    {
      ok := *;
      var done: bool := *;
      cut := ok || done;
      if ok || done {
        content := content[..len];
        survivors := survivors + iset{content};
      }
    }

    method SyncDir() returns (ok: bool)
      modifies this
      ensures State() == if ok then old(State()).(entry := true) else old(State())
    {
      ok := *;
      if ok { entry := true; }
    }
  }

  /** One more step of a run. */
  lemma {:induction false} OneMore(replays: seq<Text> -> bool, s: Sys, events: seq<Event>, t: Sys, e: Event)
    requires Run(replays, s, events, t) && Enabled(replays, t, e)
    ensures Run(replays, s, events + [e], Next(replays, t, e))
    ensures Lives(events + [e]) <==> Lives(events) && Lives([e])
    ensures SomeFailed(events + [e]) <==> SomeFailed(events) || Failing(e)
    decreases |events|
  {
    hide Next, Enabled;
    MoreFailed(events, e);
    if events == [] {
      assert [e][1..] == [];
    } else {
      OneMore(replays, Next(replays, s, events[0]), events[1..], t, e);
      assert (events + [e])[1..] == events[1..] + [e];
    }
  }

  lemma MoreFailed(events: seq<Event>, e: Event)
    ensures Lives(events + [e]) <==> Lives(events) && Lives([e])
    ensures SomeFailed(events + [e]) <==> SomeFailed(events) || Failing(e)
  {
    assert (events + [e])[|events|] == e;
    assert forall x <- events :: x in events + [e];
  }

  lemma RunNone(replays: seq<Text> -> bool, s: Sys)
    ensures Run(replays, s, [], s)
  {
  }

  lemma {:induction false} RunJoin(replays: seq<Text> -> bool, s: Sys, a: seq<Event>, t: Sys, b: seq<Event>, u: Sys)
    requires Run(replays, s, a, t) && Run(replays, t, b, u)
    ensures Run(replays, s, a + b, u)
    decreases |a|
  {
    hide Next, Enabled;
    if a == [] {
      assert a + b == b;
    } else {
      RunJoin(replays, Next(replays, s, a[0]), a[1..], t, b, u);
      assert (a + b)[1..] == a[1..] + b;
    }
  }

  /** Without a failure, `len` is the length of the file. */
  lemma ReadyLength(replays: seq<Text> -> bool, s: Sys)
    requires Inv(replays, s) && s.phase.Ready? && !s.phase.broken
    ensures s.phase.len == |s.disk.content|
    ensures s.disk.content == HeaderText() + Lines(s.phase.view)
    ensures Explains(s.hist, s.phase.view)
  {
    hide HeaderText, Lines, Good;
  }

  lemma WriteLength(replays: seq<Text> -> bool, s: Sys)
    requires Inv(replays, s) && s.phase.Write?
    ensures s.phase.len == |s.disk.content|
  {
    hide HeaderText, Lines, Good, Base;
  }

  /** What every point of a run from a journal in order is. */
  lemma OpensOrNot(replays: seq<Text> -> bool, s: Sys, events: seq<Event>, t: Sys)
    requires Run(replays, s, events, t)
    ensures Inv(replays, s) ==> Inv(replays, t)
    ensures Inv(replays, s) && t.phase.Ready? && !t.phase.broken ==>
              t.disk.content == HeaderText() + Lines(t.phase.view) && Explains(t.hist, t.phase.view)
  {
    hide Run, Inv, HeaderText, Lines;
    if Inv(replays, s) {
      WalSafety.RunKeeps(replays, s, events, t);
      if t.phase.Ready? && !t.phase.broken { ReadyLength(replays, t); }
    }
  }

  class Handle {
    const wal: FileWal
    var len: nat
    var broken: bool
    ghost var view: seq<Text>
    ghost var hist: seq<Item>
    ghost var session: nat

    constructor (wal: FileWal, len: nat, ghost view: seq<Text>, ghost hist: seq<Item>, ghost session: nat)
      ensures this.wal == wal && this.len == len && !broken
      ensures this.view == view && this.hist == hist && this.session == session
    {
      this.wal, this.len, this.broken := wal, len, false;
      this.view, this.hist, this.session := view, hist, session;
    }

    /** Between calls: the handle, its file, and the requests made so far. */
    ghost function State(): Sys
      reads this, wal
    {
      Sys(wal.State(), Ready(len, broken, view), hist, session)
    }

    /** With an append of `what` about to start. */
    ghost function Writing(what: Target): Sys
      reads this, wal
    {
      Sys(wal.State(), Write(len, view, what), hist, session)
    }

    /** The latch is set: what the failed append left of the line is cut off if that can be done. */
    method CutBack(what: Target, ghost replays: seq<Text> -> bool, ghost s: Sys, ghost before: seq<Event>)
      returns (ghost events: seq<Event>)
      requires len <= |wal.content|
      requires Run(replays, s, before, Sys(wal.State(), Heal(len, view, what), hist, session))
      modifies wal, this`broken
      ensures broken
      ensures Run(replays, s, events, State().(phase := if what.HeaderTarget? then Closed else State().phase))
      ensures before <= events && (Lives(before) ==> Lives(events)) && (SomeFailed(before) ==> SomeFailed(events))
      ensures wal.entry == old(wal.entry)
    {
      hide Run, SomeFailed;
      ghost var cut: bool;
      var healed: bool;
      ghost var t := Sys(wal.State(), Heal(len, view, what), hist, session);
      healed, cut := wal.Truncate(len);
      OneMore(replays, s, before, t, TruncateDone(healed, cut));
      events, t := before + [TruncateDone(healed, cut)], Next(replays, t, TruncateDone(healed, cut));
      if healed {
        healed := wal.Sync();
        OneMore(replays, s, events, t, SyncDone(healed));
        events := events + [SyncDone(healed)];
      }
      broken := true;
    }

    /** `append_line` after its check of the latch: append, sync, and on an error cut back and give up for good. */
    method AppendLine(what: Target, ghost replays: seq<Text> -> bool, ghost s: Sys, ghost before: seq<Event>)
      returns (ok: bool, ghost events: seq<Event>)
      requires !broken && len == |wal.content|
      requires if what.RecordTarget? then hist != [] else view == [] && len == 0
      requires Run(replays, s, before, Writing(what))
      modifies this, wal
      ensures view == if ok && what.RecordTarget? then old(view) + [what.body] else old(view)
      ensures hist == if ok && what.RecordTarget? then Acknowledged(old(hist)) else old(hist)
      ensures session == old(session) && broken == !ok
      ensures ok ==> wal.content == old(wal.content) + LineOf(what) && len == |wal.content|
                     && wal.survivors == iset{wal.content}
      ensures Run(replays, s, events, if what.HeaderTarget? && !ok then State().(phase := Closed) else State())
      ensures before <= events && (Lives(before) ==> Lives(events))
      ensures !SomeFailed(before) ==> (ok <==> !SomeFailed(events))
      ensures wal.entry == old(wal.entry)
    {
      hide Run, Frame, HeaderText, SomeFailed;
      var line := match what case HeaderTarget => HeaderText() case RecordTarget(b) => Written(Frame(b));
      ghost var t := Writing(what);
      ghost var k: nat;
      ok, k := wal.Append(line);
      OneMore(replays, s, before, t, WriteDone(ok, k));
      events, t := before + [WriteDone(ok, k)], Next(replays, t, WriteDone(ok, k));
      if !ok {
        events := CutBack(what, replays, s, events);
        return;
      }
      assert line[..|line|] == line;
      ok := wal.Sync();
      OneMore(replays, s, events, t, SyncDone(ok));
      events := events + [SyncDone(ok)];
      if !ok {
        broken := true;
        return;
      }
      len := len + |line|;
      if what.RecordTarget? {
        view := view + [what.body];
        hist := Acknowledged(hist);
      } else {
        assert [] + line == line;
      }
    }

    /** `persist` and `record`: one line, refused outright once the latch is set. */
    method Record(body: Text, ghost replays: seq<Text> -> bool) returns (ok: bool, ghost events: seq<Event>)
      requires Inv(replays, State())
      requires !broken ==> IsBody(body) && replays(view + [body])
      modifies this, wal
      ensures Inv(replays, State()) && Run(replays, old(State()), events, State())
      ensures session == old(session) && broken == !ok && Lives(events)
      ensures old(broken) ==> !ok && unchanged(wal) && State() == old(State())
      ensures !old(broken) ==> (ok <==> !SomeFailed(events))
      ensures ok ==> view == old(view) + [body] && hist == old(hist) + [Item(body, true, session)]
      ensures ok ==> wal.survivors == iset{wal.content}
      ensures !ok ==> view == old(view)
    {
      hide Run, Inv, Frame, HeaderText;
      if broken {
        events := [];
        RunNone(replays, State());
        return false, events;
      }
      assert len == |wal.content| by { ReadyLength(replays, State()); }
      ghost var s := State();
      RunNone(replays, s);
      OneMore(replays, s, [], s, Begin(body));
      hist := hist + [Item(body, false, session)];
      ok, events := AppendLine(RecordTarget(body), replays, s, [] + [Begin(body)]);
      WalSafety.RunKeeps(replays, s, events, State());
    }

    /**
      `mark_interrupted`: persist every deployment the restart changed, in order, stopping at the first failure.
      `changed` are the encoded snapshots that differ from what was restored.
     */
    method MarkInterrupted(changed: seq<Text>, ghost replays: seq<Text> -> bool)
      returns (ok: bool, ghost events: seq<Event>)
      requires Inv(replays, State()) && !broken
      requires forall i :: 0 <= i < |changed| ==> IsBody(changed[i]) && replays(view + changed[..i + 1])
      modifies this, wal
      ensures Inv(replays, State()) && Run(replays, old(State()), events, State())
      ensures Lives(events) && (ok <==> !SomeFailed(events))
      ensures ok ==> !broken && view == old(view) + changed
      ensures !ok ==> broken && exists n :: 0 <= n < |changed| && view == old(view) + changed[..n]
      ensures changed == [] ==> ok && unchanged(wal) && State() == old(State())
    {
      hide Run, Inv, IsBody;
      events := [];
      RunNone(replays, State());
      for i := 0 to |changed|
        invariant Inv(replays, State()) && Run(replays, old(State()), events, State())
        invariant !broken && view == old(view) + changed[..i]
        invariant Lives(events) && !SomeFailed(events)
        invariant i == 0 ==> unchanged(wal) && State() == old(State())
      {
        assert view + [changed[i]] == old(view) + changed[..i + 1];
        ghost var more: seq<Event>;
        ghost var mid := State();
        ok, more := Record(changed[i], replays);
        RunJoin(replays, old(State()), events, mid, more, State());
        events := events + more;
        if !ok { return; }
      }
      assert changed[..|changed|] == changed;
      ok := true;
    }
  }

  /** What `open_with` hands out. */
  datatype Opened = NotOpened | Opened(handle: Handle, records: seq<Text>, discarded: nat)

  /** A file without a whole line has no record, and nothing of it is kept. */
  lemma NoHeaderNothing(bytes: Text)
    ensures var x := Recover(bytes); x.Ok? && !x.value.hasHeader ==> x.value.records == [] && x.value.validLen == 0
  {
    hide ReadLine, Find;
  }

  lemma HeaderIffLine(bytes: Text)
    ensures var x := Recover(bytes);
            x.Ok? ==> (x.value.hasHeader <==> NEWLINE in bytes) && (!x.value.hasHeader ==> x.value.validLen == 0)
  {
    hide ReadLine, BuildOutput.FromUtf8;
    ScanStep(bytes, 1);
    if NEWLINE !in bytes {
      ScanTorn(bytes, 1);
    } else {
      var i :| 0 <= i < |bytes| && bytes[i] == NEWLINE;
      assert Find(bytes, NEWLINE) < |bytes|;
    }
  }

  /**
    An open accepts a file exactly when it is the beginning of a header line, cut short by a crash, or has a whole
    header and recovers; and what it holds replays. Anyone else's file is refused.
   */
  lemma AcceptsIff(replays: seq<Text> -> bool, content: Text)
    ensures Accepts(replays, content) <==>
            if NEWLINE !in content then content <= HeaderLine() && replays([])
            else Recover(content).Ok? && replays(Recover(content).value.records)
  {
    HeaderIffLine(content);
    NoHeaderNothing(content);
    hide Recover, HeaderLine;
    if NEWLINE !in content {
      TornIsFine(content);
      assert content[0..] == content;
    }
  }

  lemma TornIsFine(content: Text)
    requires NEWLINE !in content
    ensures Recover(content).Ok?
  {
    ScanTorn(content, 1);
  }

  /** A header, whole records and nothing after them. */
  predicate Whole(content: Text) {
    var x := Recover(content);
    x.Ok? && x.value.hasHeader && x.value.torn == 0
  }

  /** What an open leaves in a file it accepts when every call works: no torn tail, and a header. */
  function Repaired(content: Text): Text {
    match Recover(content)
    case Ok(x) => if x.hasHeader then content[..x.validLen] else HeaderText()
    case Err(_) => content
  }

  /** The torn tail of an open is cut off and the cut synced. */
  method CutTail(wal: FileWal, rec: Recovered, ghost replays: seq<Text> -> bool, ghost s: Sys, ghost before: seq<Event>,
                 ghost t: Sys)
    returns (ok: bool, ghost events: seq<Event>, ghost u: Sys)
    requires Run(replays, s, before, t) && t.phase == Trim(rec) && t.disk == wal.State()
    requires rec.validLen <= |wal.content| && Lives(before) && !SomeFailed(before)
    modifies wal
    ensures Run(replays, s, events, u) && Lives(events) && (ok <==> !SomeFailed(events))
    ensures u == if ok then AfterTrim(t.(disk := wal.State()), rec) else t.(disk := wal.State(), phase := Closed)
    ensures ok ==> wal.content == old(wal.content)[..rec.validLen]
  {
    hide Run, SomeFailed;
    ghost var cut: bool;
    ok, cut := wal.Truncate(rec.validLen);
    OneMore(replays, s, before, t, TruncateDone(ok, cut));
    events, u := before + [TruncateDone(ok, cut)], Next(replays, t, TruncateDone(ok, cut));
    if ok {
      ok := wal.Sync();
      OneMore(replays, s, events, u, SyncDone(ok));
      events, u := events + [SyncDone(ok)], Next(replays, u, SyncDone(ok));
    }
  }

  /** A file without a header gets its directory synced and then its header. */
  method WriteHeader(j: Handle, ghost replays: seq<Text> -> bool, ghost s: Sys, ghost before: seq<Event>)
    returns (ok: bool, ghost events: seq<Event>)
    requires !j.broken && j.len == 0 && j.view == [] && j.wal.content == []
    requires Run(replays, s, before, j.State().(phase := DirSync)) && Lives(before) && !SomeFailed(before)
    modifies j, j.wal
    ensures Run(replays, s, events, if ok then j.State() else j.State().(phase := Closed))
    ensures Lives(events) && (ok <==> !SomeFailed(events))
    ensures j.view == [] && j.hist == old(j.hist) && j.session == old(j.session)
    ensures ok ==> !j.broken && j.wal.content == HeaderText() && j.len == |j.wal.content|
  {
    hide Run, SomeFailed, HeaderText, Frame;
    ghost var t := j.State().(phase := DirSync);
    ok := j.wal.SyncDir();
    OneMore(replays, s, before, t, DirSyncDone(ok));
    events := before + [DirSyncDone(ok)];
    if ok {
      Unit(HeaderText());
      ok, events := j.AppendLine(HeaderTarget, replays, s, events);
    }
  }

  /**
    `open_with`: read, recover and replay; cut off a torn tail; write the header of a new file. `hist` and `session`
    are what was requested before. A file that is damaged, someone else's, or does not replay is refused untouched; any
    other is opened, with exactly its records, unless a call on it fails.
   */
  method OpenWith(wal: FileWal, replays: seq<Text> -> bool, ghost hist: seq<Item>, ghost session: nat)
    returns (r: Opened, ghost events: seq<Event>)
    modifies wal
    ensures Lives(events)
    ensures !Accepts(replays, old(wal.content)) ==> r.NotOpened? && events == [OpenRead] && unchanged(wal)
    ensures Accepts(replays, old(wal.content)) ==> (r.Opened? <==> !SomeFailed(events))
    ensures Whole(old(wal.content)) ==> events == [OpenRead] && unchanged(wal)
    ensures r.Opened? ==>
              && fresh(r.handle) && r.handle.wal == wal && !r.handle.broken
              && r.handle.len == |wal.content| && wal.content == Repaired(old(wal.content))
              && Recover(old(wal.content)).value.records == r.records == r.handle.view
              && Recover(old(wal.content)).value.torn == r.discarded
              && r.handle.hist == hist && r.handle.session == session + 1
              && Run(replays, old(Sys(wal.State(), Closed, hist, session)), events, r.handle.State())
    ensures r.Opened? && old(Inv(replays, Sys(wal.State(), Closed, hist, session))) ==>
              && wal.content == HeaderText() + Lines(r.records)
              && Explains(hist, r.records)
              && Inv(replays, r.handle.State())
    ensures r.NotOpened? ==>
              && Run(replays, old(Sys(wal.State(), Closed, hist, session)), events,
                     Sys(wal.State(), Closed, hist, session + 1))
    ensures r.NotOpened? && old(Inv(replays, Sys(wal.State(), Closed, hist, session))) ==>
              Inv(replays, Sys(wal.State(), Closed, hist, session + 1))
  {
    hide Run, Inv, Recover, HeaderText, HeaderLine, Lines, Frame;
    ghost var s := Sys(wal.State(), Closed, hist, session);
    ghost var t := Next(replays, s, OpenRead);
    RunNone(replays, s);
    OneMore(replays, s, [], s, OpenRead);
    events := [] + [OpenRead];
    OpensOrNot(replays, s, events, t);
    assert events == [OpenRead] && !SomeFailed(events);
    hide SomeFailed;
    r := NotOpened;
    var bytes := wal.content;
    NoHeaderNothing(bytes);
    var found := RecoverFile(bytes);
    if found.Err? { return; }
    var rec := found.value;
    if !rec.hasHeader && !(bytes[rec.validLen..] <= HeaderLine()) { return; }
    if !replays(rec.records) { return; }
    ghost var u := t;
    if rec.torn > 0 {
      var ok;
      ok, events, u := CutTail(wal, rec, replays, s, events, t);
      if !ok {
        OpensOrNot(replays, s, events, u);
        return;
      }
    }
    assert wal.content == bytes[..rec.validLen] && u == AfterTrim(t.(disk := wal.State()), rec);
    if rec.hasHeader {
      var h := new Handle(wal, rec.validLen, rec.records, hist, session + 1);
      OpensOrNot(replays, s, events, u);
      return Opened(h, rec.records, rec.torn), events;
    }
    var j := new Handle(wal, 0, [], hist, session + 1);
    var ok;
    ok, events := WriteHeader(j, replays, s, events);
    OpensOrNot(replays, s, events, if ok then j.State() else j.State().(phase := Closed));
    if ok { r := Opened(j, [], rec.torn); }
  }
}
