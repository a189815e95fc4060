/**
  The write-ahead journal as a state machine (deploy-journal/src/lib.rs): one step for each call on the file, each of
  which may fail or be torn, and a process death or a power loss between any two of them.

  The disk keeps the bytes a reader sees and the set of contents a power loss could leave: an append adds every part
  of what it writes, a cut adds the shorter file, and only a successful sync settles on what is there.
 */
module WalRuns {
  import opened Bytes
  import opened JournalFormat

  /** A record the engine asked to write in some session, and whether it was told `Ok`. */
  datatype Item = Item(body: Text, acked: bool, session: nat)

  datatype Disk = Disk(content: Text, survivors: iset<Text>, entry: bool)

  datatype Target = HeaderTarget | RecordTarget(body: Text)

  datatype Phase =
    | Closed
    | Trim(rec: Recovered)
    | TrimSync(rec: Recovered)
    | DirSync
    | Ready(len: nat, broken: bool, view: seq<Text>)
    | Write(len: nat, view: seq<Text>, what: Target)
    | Sync(len: nat, view: seq<Text>, what: Target)
    | Heal(len: nat, view: seq<Text>, what: Target)
    | HealSync(len: nat, view: seq<Text>, what: Target)

  datatype Sys = Sys(disk: Disk, phase: Phase, hist: seq<Item>, session: nat)

  datatype Event =
    | OpenRead
    | TruncateDone(ok: bool, cut: bool)
    | SyncDone(ok: bool)
    | DirSyncDone(ok: bool)
    | Begin(body: Text)
    | WriteDone(ok: bool, k: nat)
    | Die
    | PowerLoss(image: Text)

  function LineOf(what: Target): Text {
    match what
    case HeaderTarget => HeaderText()
    case RecordTarget(b) => Written(Frame(b))
  }

  // ---------------------------------------------------------------- the disk

  /** What a power loss may leave: a survivor, or no file at all while the directory entry is not durable. */
  ghost predicate CrashImage(d: Disk, image: Text) {
    image in d.survivors || (!d.entry && image == [])
  }

  /** `k` bytes of `bytes` reach the file (all of them when the append succeeds). */
  ghost function Appended(d: Disk, bytes: Text, k: nat): Disk
    requires k <= |bytes|
  {
    Disk(d.content + bytes[..k],
         d.survivors + iset i | 0 <= i <= k :: d.content + bytes[..i],
         d.entry)
  }

  ghost function Truncated(d: Disk, len: nat): Disk
    requires len <= |d.content|
  {
    Disk(d.content[..len], d.survivors + iset{d.content[..len]}, d.entry)
  }

  ghost function Synced(d: Disk): Disk {
    Disk(d.content, iset{d.content}, d.entry)
  }

  // ---------------------------------------------------------------- one step

  /** The open has read `content` and accepts it: it is a journal, and its records replay. */
  ghost predicate Accepts(replays: seq<Text> -> bool, content: Text) {
    var r := Recover(content);
    && r.Ok?
    && (!r.value.hasHeader ==> content[r.value.validLen..] <= HeaderLine())
    && replays(r.value.records)
  }

  ghost function AfterTrim(s: Sys, rec: Recovered): Sys {
    s.(phase := if rec.hasHeader then Ready(rec.validLen, false, rec.records) else DirSync)
  }

  /** What the handle is after an append that did not succeed: an open that was writing the header gives up. */
  ghost function Failed(s: Sys): Sys
    requires s.phase.Sync? || s.phase.Heal? || s.phase.HealSync?
  {
    s.(phase := if s.phase.what.HeaderTarget? then Closed else Ready(s.phase.len, true, s.phase.view))
  }

  ghost predicate Enabled(replays: seq<Text> -> bool, s: Sys, e: Event) {
    match e
    case OpenRead => s.phase.Closed?
    case TruncateDone(ok, cut) =>
      && (s.phase.Trim? || s.phase.Heal?)
      && (ok ==> cut)
      && (s.phase.Trim? ==> s.phase.rec.validLen <= |s.disk.content|)
      && (s.phase.Heal? ==> s.phase.len <= |s.disk.content|)
    case SyncDone(_) => s.phase.TrimSync? || s.phase.Sync? || s.phase.HealSync?
    case DirSyncDone(_) => s.phase.DirSync?
    case Begin(b) => s.phase.Ready? && (s.phase.broken || (IsBody(b) && replays(s.phase.view + [b])))
    case WriteDone(ok, k) => s.phase.Write? && k <= |LineOf(s.phase.what)| && (ok ==> k == |LineOf(s.phase.what)|)
    case Die => true
    case PowerLoss(image) => CrashImage(s.disk, image)
  }

  ghost function Next(replays: seq<Text> -> bool, s: Sys, e: Event): Sys {
    if !Enabled(replays, s, e) then s
    else
    match e
    case OpenRead =>
      var t := s.(session := s.session + 1);
      if !Accepts(replays, s.disk.content) then t
      else
        var rec := Recover(s.disk.content).value;
        if rec.torn > 0 then t.(phase := Trim(rec)) else AfterTrim(t, rec)
    case TruncateDone(ok, cut) =>
      if s.phase.Trim? then
        var d := if cut then Truncated(s.disk, s.phase.rec.validLen) else s.disk;
        s.(disk := d, phase := if ok then TrimSync(s.phase.rec) else Closed)
      else
        var d := if cut then Truncated(s.disk, s.phase.len) else s.disk;
        if ok then s.(disk := d, phase := HealSync(s.phase.len, s.phase.view, s.phase.what))
        else Failed(s.(disk := d))
    case SyncDone(ok) =>
      var t := if ok then s.(disk := Synced(s.disk)) else s;
      (match s.phase
       case TrimSync(rec) => if ok then AfterTrim(t, rec) else s.(phase := Closed)
       case HealSync(_, _, _) => Failed(t)
       case Sync(len, view, HeaderTarget) => if ok then t.(phase := Ready(|HeaderText()|, false, [])) else Failed(t)
       case Sync(len, view, RecordTarget(b)) =>
         if ok then
           t.(phase := Ready(len + |Written(Frame(b))|, false, view + [b]), hist := Acknowledged(s.hist))
         else Failed(t)
       case _ => s)
    case DirSyncDone(ok) =>
      if ok then s.(disk := s.disk.(entry := true), phase := Write(0, [], HeaderTarget)) else s.(phase := Closed)
    case Begin(b) =>
      if s.phase.broken then s
      else
        s.(phase := Write(s.phase.len, s.phase.view, RecordTarget(b)),
           hist := s.hist + [Item(b, false, s.session)])
    case WriteDone(ok, k) =>
      var (len, view, what) := (s.phase.len, s.phase.view, s.phase.what);
      s.(disk := Appended(s.disk, LineOf(what), k),
         phase := if ok then Sync(len, view, what) else Heal(len, view, what))
    case Die => s.(phase := Closed)
    case PowerLoss(image) => s.(disk := Disk(image, iset{image}, s.disk.entry), phase := Closed)
  }

  /** The last item is confirmed: its append and its sync succeeded. */
  function Acknowledged(hist: seq<Item>): seq<Item> {
    if hist == [] then [] else hist[..|hist| - 1] + [hist[|hist| - 1].(acked := true)]
  }

  /** `events` happen one after the other from `s` and end in `t`. */
  ghost predicate Run(replays: seq<Text> -> bool, s: Sys, events: seq<Event>, t: Sys)
    decreases |events|
  {
    if events == [] then s == t
    else Enabled(replays, s, events[0]) && Run(replays, Next(replays, s, events[0]), events[1..], t)
  }

  /** Neither the process ends nor the power fails. */
  predicate Lives(events: seq<Event>) {
    forall e <- events :: !e.Die? && !e.PowerLoss?
  }

  /** A call on the file that reports an error. */
  predicate Failing(e: Event) {
    (e.TruncateDone? || e.SyncDone? || e.DirSyncDone? || e.WriteDone?) && !e.ok
  }

  predicate SomeFailed(events: seq<Event>) {
    exists e <- events :: Failing(e)
  }

  /** Nothing was ever written: no file, no directory entry, no request. */
  ghost function Start(): Sys {
    Sys(Disk([], iset{[]}, false), Closed, [], 0)
  }

  // ---------------------------------------------------------------- what a file may hold

  /** `records` are the requests in order: every confirmed one, and any of the others. */
  ghost predicate Explains(hist: seq<Item>, records: seq<Text>)
    decreases |hist|
  {
    if hist == [] then records == []
    else
      var (init, last) := (hist[..|hist| - 1], hist[|hist| - 1]);
      || (records != [] && records[|records| - 1] == last.body && Explains(init, records[..|records| - 1]))
      || (!last.acked && Explains(init, records))
  }

  ghost predicate Bodies(records: seq<Text>) {
    forall r <- records :: IsBody(r)
  }

  /** A file that holds exactly `records`: perhaps with a torn tail, or (no record yet) with a torn header. */
  ghost predicate Image(image: Text, records: seq<Text>) {
    || (records == [] && image < HeaderText())
    || exists t :: NEWLINE !in t && Bodies(records) && image == HeaderText() + Lines(records) + t
  }

  ghost predicate Good(replays: seq<Text> -> bool, hist: seq<Item>, image: Text) {
    exists records :: Image(image, records) && Explains(hist, records) && replays(records)
  }

  /** The file is exactly `view`, with nothing torn. */
  ghost predicate Clean(replays: seq<Text> -> bool, hist: seq<Item>, content: Text, view: seq<Text>) {
    && content == HeaderText() + Lines(view)
    && Bodies(view)
    && Explains(hist, view)
    && replays(view)
  }

  /** The requests of a session are confirmed except perhaps its last one. */
  ghost predicate OneLoosePerSession(hist: seq<Item>, session: nat) {
    && (forall i :: 0 <= i < |hist| ==> hist[i].session <= session)
    && (forall i, j :: 0 <= i < j < |hist| ==>
          hist[i].session <= hist[j].session && (hist[i].session == hist[j].session ==> hist[i].acked))
  }

  ghost predicate SessionConfirmed(hist: seq<Item>, session: nat) {
    forall i :: 0 <= i < |hist| && hist[i].session == session ==> hist[i].acked
  }

  /** Before an append of `what` the first `len` bytes are the whole file, and what is being written may follow. */
  ghost predicate Base(replays: seq<Text> -> bool, s: Sys, base: Text, view: seq<Text>, what: Target) {
    && s.disk.entry
    && match what
    case HeaderTarget => base == [] && view == [] && Explains(s.hist, []) && replays([])
    case RecordTarget(b) =>
      && IsBody(b) && replays(view + [b])
      && s.hist != [] && s.hist[|s.hist| - 1] == Item(b, false, s.session)
      && Clean(replays, s.hist[..|s.hist| - 1], base, view)
  }

  ghost predicate PhaseInv(replays: seq<Text> -> bool, s: Sys) {
    match s.phase
    case Closed => true
    case Trim(rec) => SessionConfirmed(s.hist, s.session) && Recover(s.disk.content) == Ok(rec)
    case TrimSync(rec) =>
      && SessionConfirmed(s.hist, s.session)
      && |s.disk.content| == rec.validLen
      && (if rec.hasHeader then Clean(replays, s.hist, s.disk.content, rec.records)
          else s.disk.content == [] && Explains(s.hist, []) && replays([]))
    case DirSync => SessionConfirmed(s.hist, s.session) && s.disk.content == [] && Explains(s.hist, []) && replays([])
    case Ready(len, broken, view) =>
      !broken ==>
        && SessionConfirmed(s.hist, s.session)
        && Clean(replays, s.hist, s.disk.content, view)
        && len == |s.disk.content|
    case Write(len, view, what) =>
      len == |s.disk.content| && Base(replays, s, s.disk.content, view, what) && Others(s, what)
    case Sync(len, view, what) =>
      && len <= |s.disk.content|
      && Base(replays, s, s.disk.content[..len], view, what)
      && s.disk.content == s.disk.content[..len] + LineOf(what)
      && Others(s, what)
    case Heal(len, view, what) =>
      len <= |s.disk.content| && Base(replays, s, s.disk.content[..len], view, what) && Others(s, what)
    case HealSync(len, view, what) =>
      len == |s.disk.content| && Base(replays, s, s.disk.content, view, what) && Others(s, what)
  }

  /** Everything this session asked for before `what` was confirmed. */
  ghost predicate Others(s: Sys, what: Target) {
    match what
    case HeaderTarget => SessionConfirmed(s.hist, s.session)
    case RecordTarget(_) => s.hist != [] && SessionConfirmed(s.hist[..|s.hist| - 1], s.session)
  }

  ghost predicate Inv(replays: seq<Text> -> bool, s: Sys) {
    && s.disk.content in s.disk.survivors
    && (forall image :: image in s.disk.survivors ==> Good(replays, s.hist, image))
    && (!s.disk.entry ==> s.disk.content == [] && s.disk.survivors == iset{[]})
    && OneLoosePerSession(s.hist, s.session)
    && PhaseInv(replays, s)
  }
}
