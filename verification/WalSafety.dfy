/** Every run of the journal, whatever fails and wherever it stops, keeps what it acknowledged. */
module WalSafety {
  import opened Bytes
  import opened JournalFormat
  import opened WalRuns

  // ---------------------------------------------------------------- images

  /** A file that holds exactly `records` is recovered as exactly those. */
  lemma ImageRecovers(image: Text, records: seq<Text>)
    requires Image(image, records)
    ensures var r := Recover(image);
            && r.Ok? && r.value.records == records
            && (!r.value.hasHeader ==> records == [] && r.value.validLen == 0 && image <= HeaderLine())
            && (r.value.hasHeader ==> Bodies(records) && r.value.validLen <= |image|
                                      && image[..r.value.validLen] == HeaderText() + Lines(records))
  {
    hide Recover, HeaderLine;
    if records == [] && image < HeaderText() {
      RecoverTornHeader(image);
      TornHeaderIsPrefix(image, HeaderLine());
    } else {
      var t :| NEWLINE !in t && Bodies(records) && image == HeaderText() + Lines(records) + t;
      RecoverImage(records, t);
    }
  }

  lemma TornHeaderIsPrefix(p: Text, line: Text)
    requires p < Written(line)
    ensures p <= line
  {
    assert forall i :: 0 <= i < |p| ==> p[i] == line[i];
  }

  lemma CleanIsImage(replays: seq<Text> -> bool, hist: seq<Item>, content: Text, view: seq<Text>)
    requires Clean(replays, hist, content, view)
    ensures Good(replays, hist, content)
  {
    hide HeaderText, Lines;
    Unit(content);
    assert Image(content, view);
  }

  /** The header up to any byte is an empty journal. */
  lemma HeaderPart(k: nat)
    requires k <= |HeaderText()|
    ensures Image([] + HeaderText()[..k], [])
  {
    hide HeaderLine;
    var h := HeaderText();
    Unit(h[..k]);
    if k == |h| {
      Unit(h);
      Unit(h + Lines([]));
      assert NEWLINE !in [] && h[..k] == h + Lines([]) + [];
    }
  }

  /** Any part of a record after a clean file is a torn tail; the whole of it is one more record. */
  lemma RecordPart(base: Text, view: seq<Text>, b: Text, k: nat)
    requires Bodies(view) && IsBody(b) && base == HeaderText() + Lines(view) && k <= |Written(Frame(b))|
    ensures Image(base + Written(Frame(b))[..k], if k == |Written(Frame(b))| then view + [b] else view)
  {
    hide HeaderText, Lines, Frame, IsBody, Image, Bodies;
    var line := Frame(b);
    ReadRecord(b, 2);
    if k == |Written(line)| {
      assert Written(line)[..k] == Written(line);
      LinesAppend(view, b);
      Assoc(HeaderText(), Lines(view), Written(line));
      Unit(HeaderText() + Lines(view + [b]));
      BodiesMore(view, b);
      TornImage(view + [b], []);
    } else {
      assert Written(line)[..k] == line[..k];
      TornImage(view, line[..k]);
    }
  }

  lemma TornImage(records: seq<Text>, t: Text)
    requires Bodies(records) && NEWLINE !in t
    ensures Image(HeaderText() + Lines(records) + t, records)
  {
    hide HeaderText, Lines, Bodies;
  }

  lemma BodiesMore(records: seq<Text>, b: Text)
    requires Bodies(records) && IsBody(b)
    ensures Bodies(records + [b])
  {
    hide IsBody;
  }

  // ---------------------------------------------------------------- requests

  lemma ExplainsMore(hist: seq<Item>, item: Item, records: seq<Text>)
    requires Explains(hist, records)
    ensures Explains(hist + [item], records + [item.body])
    ensures !item.acked ==> Explains(hist + [item], records)
  {
    assert (hist + [item])[..|hist + [item]| - 1] == hist;
    assert (records + [item.body])[..|records + [item.body]| - 1] == records;
  }

  lemma ExplainsInit(hist: seq<Item>, records: seq<Text>)
    requires hist != [] && Explains(hist[..|hist| - 1], records)
    ensures !hist[|hist| - 1].acked ==> Explains(hist, records)
    ensures Explains(hist, records + [hist[|hist| - 1].body])
  {
    hide Explains;
    var init, last := hist[..|hist| - 1], hist[|hist| - 1];
    assert hist == init + [last];
    ExplainsMore(init, last, records);
  }

  lemma GoodMore(replays: seq<Text> -> bool, hist: seq<Item>, item: Item, image: Text)
    requires Good(replays, hist, image) && !item.acked
    ensures Good(replays, hist + [item], image)
  {
    hide Image;
    var records :| Image(image, records) && Explains(hist, records) && replays(records);
    ExplainsMore(hist, item, records);
  }

  // ---------------------------------------------------------------- one lemma for each step

  /** A good file is accepted, and what is read from it is what the requests explain. */
  lemma GoodIsAccepted(replays: seq<Text> -> bool, hist: seq<Item>, content: Text)
    requires Good(replays, hist, content)
    ensures Accepts(replays, content)
    ensures var rec := Recover(content).value;
            && Explains(hist, rec.records) && replays(rec.records)
            && (rec.hasHeader ==>
                  rec.validLen <= |content| && Clean(replays, hist, content[..rec.validLen], rec.records))
            && (!rec.hasHeader ==> rec.records == [] && rec.validLen == 0)
  {
    hide Recover, Image, HeaderText, HeaderLine, Lines;
    var records :| Image(content, records) && Explains(hist, records) && replays(records);
    ImageRecovers(content, records);
  }

  lemma OpenKeeps(replays: seq<Text> -> bool, s: Sys)
    requires Inv(replays, s) && s.phase.Closed?
    ensures Accepts(replays, s.disk.content)
    ensures Inv(replays, Next(replays, s, OpenRead))
  {
    hide Recover, Good, Clean, Explains, HeaderText, HeaderLine, Lines;
    var content := s.disk.content;
    GoodIsAccepted(replays, s.hist, content);
    var rec := Recover(content).value;
    assert rec.validLen + rec.torn == |content|;
    assert rec.torn == 0 ==> content[..rec.validLen] == content;
  }

  lemma TruncateKeeps(replays: seq<Text> -> bool, s: Sys, ok: bool, cut: bool)
    requires Inv(replays, s) && Enabled(replays, s, TruncateDone(ok, cut))
    ensures Inv(replays, Next(replays, s, TruncateDone(ok, cut)))
  {
    hide Recover, Image, HeaderText, HeaderLine, Lines, Frame, Good, Accepts;
    var content := s.disk.content;
    if s.phase.Trim? {
      var rec := s.phase.rec;
      GoodIsAccepted(replays, s.hist, content);
      if rec.hasHeader {
        CleanIsImage(replays, s.hist, content[..rec.validLen], rec.records);
      } else {
        EmptyIsGood(replays, s.hist);
      }
    } else {
      BaseIsGood(replays, s, content[..s.phase.len], s.phase.view, s.phase.what);
    }
  }

  lemma EmptyIsGood(replays: seq<Text> -> bool, hist: seq<Item>)
    requires Explains(hist, []) && replays([])
    ensures Good(replays, hist, [])
  {
    HeaderPart(0);
    assert [] + HeaderText()[..0] == [];
  }

  /** Without the line being written the file is still one the requests explain. */
  lemma BaseIsGood(replays: seq<Text> -> bool, s: Sys, base: Text, view: seq<Text>, what: Target)
    requires Base(replays, s, base, view, what)
    ensures Good(replays, s.hist, base)
  {
    hide HeaderText, Lines, Frame, Image;
    match what
    case HeaderTarget => EmptyIsGood(replays, s.hist);
    case RecordTarget(b) =>
      var init := s.hist[..|s.hist| - 1];
      CleanIsImage(replays, init, base, view);
      GoodMore(replays, init, s.hist[|s.hist| - 1], base);
      assert init + [s.hist[|s.hist| - 1]] == s.hist;
  }

  /** However much of the line reached the file, the requests explain what is there. */
  lemma PartIsGood(replays: seq<Text> -> bool, s: Sys, base: Text, view: seq<Text>, what: Target, k: nat)
    requires Base(replays, s, base, view, what) && k <= |LineOf(what)|
    ensures Good(replays, s.hist, base + LineOf(what)[..k])
  {
    hide HeaderText, Lines, Frame, Image, IsBody;
    match what
    case HeaderTarget => HeaderPart(k);
    case RecordTarget(b) =>
      RecordPart(base, view, b, k);
      ExplainsInit(s.hist, view);
  }

  lemma WriteKeeps(replays: seq<Text> -> bool, s: Sys, ok: bool, k: nat)
    requires Inv(replays, s) && Enabled(replays, s, WriteDone(ok, k))
    ensures Inv(replays, Next(replays, s, WriteDone(ok, k)))
  {
    hide HeaderText, Lines, Frame, Image, IsBody, Good, Clean;
    var Write(len, view, what) := s.phase;
    var d, t := s.disk, Next(replays, s, WriteDone(ok, k));
    forall i | 0 <= i <= k
      ensures Good(replays, s.hist, d.content + LineOf(what)[..i])
    {
      PartIsGood(replays, s, d.content, view, what, i);
    }
    assert t.disk.content[..len] == d.content;
    assert ok ==> LineOf(what)[..k] == LineOf(what);
  }

  lemma SyncKeeps(replays: seq<Text> -> bool, s: Sys, ok: bool)
    requires Inv(replays, s) && Enabled(replays, s, SyncDone(ok))
    ensures Inv(replays, Next(replays, s, SyncDone(ok)))
  {
    hide HeaderText, Lines, Frame, Image, IsBody, Good;
    if ok && s.phase.Sync? {
      match s.phase.what
      case HeaderTarget => HeaderDone(replays, s);
      case RecordTarget(_) => RecordDone(replays, s);
    }
  }

  lemma HeaderDone(replays: seq<Text> -> bool, s: Sys)
    requires Inv(replays, s) && s.phase.Sync? && s.phase.what.HeaderTarget?
    ensures Inv(replays, Next(replays, s, SyncDone(true)))
  {
    hide Frame, HeaderLine, Image, IsBody, Good;
    Unit(HeaderText());
    assert s.disk.content == HeaderText() + Lines([]);
  }

  /** The sync succeeded: the request is confirmed, and the file is the only thing a power loss can leave. */
  lemma RecordDone(replays: seq<Text> -> bool, s: Sys)
    requires Inv(replays, s) && s.phase.Sync? && s.phase.what.RecordTarget?
    ensures Inv(replays, Next(replays, s, SyncDone(true)))
  {
    hide HeaderText, Lines, Frame, Image, IsBody;
    var Sync(len, view, RecordTarget(b)) := s.phase;
    var base, t := s.disk.content[..len], Next(replays, s, SyncDone(true));
    var init := s.hist[..|s.hist| - 1];
    assert t.hist == init + [Item(b, true, s.session)];
    ExplainsMore(init, Item(b, true, s.session), view);
    LinesAppend(view, b);
    Assoc(HeaderText(), Lines(view), Written(Frame(b)));
    CleanIsImage(replays, t.hist, t.disk.content, view + [b]);
  }

  lemma BeginKeeps(replays: seq<Text> -> bool, s: Sys, b: Text)
    requires Inv(replays, s) && Enabled(replays, s, Begin(b))
    ensures Inv(replays, Next(replays, s, Begin(b)))
  {
    hide HeaderText, Lines, Frame, Image, IsBody, Good;
    if !s.phase.broken {
      var item := Item(b, false, s.session);
      CleanHasEntry(replays, s.hist, s.disk, s.phase.view);
      forall image | image in s.disk.survivors
        ensures Good(replays, s.hist + [item], image)
      {
        GoodMore(replays, s.hist, item, image);
      }
      RequestFollows(replays, s, b);
    }
  }

  lemma CleanHasEntry(replays: seq<Text> -> bool, hist: seq<Item>, d: Disk, view: seq<Text>)
    requires Clean(replays, hist, d.content, view)
    ensures d.content != []
  {
    hide HeaderLine, Lines;
  }

  /** The new request is the session's only open one. */
  lemma RequestFollows(replays: seq<Text> -> bool, s: Sys, b: Text)
    requires s.phase.Ready? && !s.phase.broken && IsBody(b) && replays(s.phase.view + [b]) && s.disk.entry
    requires OneLoosePerSession(s.hist, s.session) && PhaseInv(replays, s)
    ensures var t := Next(replays, s, Begin(b)); PhaseInv(replays, t) && OneLoosePerSession(t.hist, t.session)
  {
    hide HeaderText, Lines, Frame, IsBody, Explains, Bodies;
    var item := Item(b, false, s.session);
    assert (s.hist + [item])[..|s.hist + [item]| - 1] == s.hist;
  }

  lemma NextKeeps(replays: seq<Text> -> bool, s: Sys, e: Event)
    requires Inv(replays, s) && Enabled(replays, s, e)
    ensures Inv(replays, Next(replays, s, e))
  {
    hide HeaderText, Lines, Frame, Image, IsBody, Good, Recover;
    match e
    case OpenRead => OpenKeeps(replays, s);
    case TruncateDone(ok, cut) => TruncateKeeps(replays, s, ok, cut);
    case SyncDone(ok) => SyncKeeps(replays, s, ok);
    case Begin(b) => BeginKeeps(replays, s, b);
    case WriteDone(ok, k) => WriteKeeps(replays, s, ok, k);
    case DirSyncDone(_) =>
    case Die =>
    case PowerLoss(_) =>
  }

  // ---------------------------------------------------------------- the theorems

  lemma {:induction false} RunKeeps(replays: seq<Text> -> bool, s: Sys, events: seq<Event>, t: Sys)
    requires Inv(replays, s) && Run(replays, s, events, t)
    ensures Inv(replays, t)
    decreases |events|
  {
    hide Inv, Next, Enabled;
    if events != [] {
      NextKeeps(replays, s, events[0]);
      RunKeeps(replays, Next(replays, s, events[0]), events[1..], t);
    }
  }

  lemma StartIsGood(replays: seq<Text> -> bool)
    requires replays([])
    ensures Inv(replays, Start())
  {
    hide HeaderText, Image;
    EmptyIsGood(replays, []);
  }

  /**
    The crash theorem. After any run from an empty directory, whatever a power loss then leaves: opening it succeeds,
    and it finds every confirmed record in order, with at most one unconfirmed record of each session, at that
    session's end, and never part of one; and those records replay.
   */
  lemma ReopenFindsWhatWasAcknowledged(replays: seq<Text> -> bool, events: seq<Event>, t: Sys, image: Text)
    requires replays([]) && Run(replays, Start(), events, t)
    requires CrashImage(t.disk, image) || image == t.disk.content
    ensures Accepts(replays, image)
    ensures Explains(t.hist, Recover(image).value.records)
    ensures replays(Recover(image).value.records)
    ensures OneLoosePerSession(t.hist, t.session)
  {
    hide Run, Good, Clean, Accepts, Recover, Next, PhaseInv;
    StartIsGood(replays);
    RunKeeps(replays, Start(), events, t);
    GoodIsAccepted(replays, t.hist, image);
  }

  // ---------------------------------------------------------------- what `Explains` says

  /** The bodies of the requests that `keep` selects. */
  function Kept(hist: seq<Item>, keep: seq<bool>): seq<Text>
    requires |keep| == |hist|
  {
    if hist == [] then []
    else
      Kept(hist[..|hist| - 1], keep[..|hist| - 1])
      + if keep[|hist| - 1] then [hist[|hist| - 1].body] else []
  }

  ghost predicate Selection(hist: seq<Item>, keep: seq<bool>) {
    |keep| == |hist| && forall i :: 0 <= i < |hist| && hist[i].acked ==> keep[i]
  }

  /** `Explains` is exactly: the records are a selection of the requests that leaves out no confirmed one. */
  lemma {:induction false} ExplainsIff(hist: seq<Item>, records: seq<Text>)
    ensures Explains(hist, records) <==> exists keep :: Selection(hist, keep) && records == Kept(hist, keep)
    decreases |hist|
  {
    if Explains(hist, records) {
      var keep := SelectionOf(hist, records);
    }
    if exists keep :: Selection(hist, keep) && records == Kept(hist, keep) {
      var keep :| Selection(hist, keep) && records == Kept(hist, keep);
      SelectionExplains(hist, keep);
    }
  }

  lemma {:induction false} SelectionOf(hist: seq<Item>, records: seq<Text>) returns (keep: seq<bool>)
    requires Explains(hist, records)
    ensures Selection(hist, keep) && records == Kept(hist, keep)
    decreases |hist|
  {
    if hist == [] {
      keep := [];
    } else {
      var (init, last) := (hist[..|hist| - 1], hist[|hist| - 1]);
      if records != [] && records[|records| - 1] == last.body && Explains(init, records[..|records| - 1]) {
        var k := SelectionOf(init, records[..|records| - 1]);
        keep := k + [true];
        assert keep[..|hist| - 1] == k;
        assert records == records[..|records| - 1] + [last.body];
      } else {
        var k := SelectionOf(init, records);
        keep := k + [false];
        assert keep[..|hist| - 1] == k;
        assert records + [] == records;
      }
    }
  }

  lemma {:induction false} SelectionExplains(hist: seq<Item>, keep: seq<bool>)
    requires Selection(hist, keep)
    ensures Explains(hist, Kept(hist, keep))
    decreases |hist|
  {
    if hist != [] {
      var (init, k) := (hist[..|hist| - 1], keep[..|hist| - 1]);
      SelectionExplains(init, k);
      var r := Kept(init, k);
      if keep[|hist| - 1] {
        assert (r + [hist[|hist| - 1].body])[..|r|] == r;
      } else {
        assert r + [] == r;
      }
    }
  }

  /** Once a write failed nothing this handle is asked to do touches the file. */
  lemma BrokenStays(replays: seq<Text> -> bool, s: Sys, e: Event)
    requires s.phase.Ready? && s.phase.broken && Enabled(replays, s, e) && !e.Die? && !e.PowerLoss?
    ensures Next(replays, s, e) == s
  {
    hide HeaderText, Recover;
  }

  /**
    So for as long as the handle lives, whatever it is asked for: the file, what a power loss could leave of it, the
    view and the confirmed requests are what they were when the write failed.
   */
  lemma {:induction false} BrokenIsFinal(replays: seq<Text> -> bool, s: Sys, events: seq<Event>, t: Sys)
    requires s.phase.Ready? && s.phase.broken && Run(replays, s, events, t) && Lives(events)
    ensures t == s
    decreases |events|
  {
    if events != [] {
      BrokenStays(replays, s, events[0]);
      BrokenIsFinal(replays, s, events[1..], t);
    }
  }

  /** A failed append that could be cut back and synced leaves no trace, not even after a power loss. */
  lemma HealedLeavesNothing(replays: seq<Text> -> bool, s: Sys)
    requires Inv(replays, s) && s.phase.HealSync? && s.phase.what.RecordTarget?
    ensures var t := Next(replays, s, SyncDone(true));
            && t.phase.Ready? && t.phase.broken
            && t.disk.survivors == iset{t.disk.content}
            && Recover(t.disk.content).Ok? && Recover(t.disk.content).value.records == s.phase.view
  {
    hide HeaderText, HeaderLine, Lines, Recover, Good, Frame, IsBody;
    assert Image(s.disk.content, s.phase.view) by { Unit(s.disk.content); }
    ImageRecovers(s.disk.content, s.phase.view);
  }
}
