/**
  `.dockerignore` for the size preflight (deploy-docker/src/ignore.rs): which lines become patterns, and which paths
  the patterns exclude.
 */
module IgnoreFile {
  import opened Bytes
  import opened Wildcards

  type Path = seq<Text>

  const SLASH: Byte := 47
  const BANG: Byte := 33
  const HASH: Byte := 35
  const DOT: Byte := 46

  // ---------------------------------------------------------------- lines

  /** What is between the separators, the last piece included when it is not empty. */
  function SplitAt(s: Text, b: Byte): (r: seq<Text>)
    decreases |s|
  {
    var i := Find(s, b);
    if i == |s| then (if s == [] then [] else [s]) else [s[..i]] + SplitAt(s[i + 1..], b)
  }

  function NonEmpty(parts: seq<Text>): seq<Text> {
    if parts == [] then []
    else (if parts[0] == [] then [] else [parts[0]]) + NonEmpty(parts[1..])
  }

  function Segments(line: Text): seq<Text> {
    NonEmpty(SplitAt(line, SLASH))
  }

  predicate HasStars(s: Text) {
    exists i | 0 <= i < |s| - 1 :: s[i] == STAR && s[i + 1] == STAR
  }

  /** A segment whose meaning is certain: no `.`, no `..`, none of `?`, `[`, `\`, `{`, and `**` only alone. */
  predicate Understood(s: Text) {
    && s != [DOT] && s != [DOT, DOT]
    && !(exists b <- s :: b == 63 || b == 91 || b == 92 || b == 123)
    && (s == STARS || !HasStars(s))
  }

  predicate IsPattern(segs: seq<Text>) {
    segs != [] && forall i | 0 <= i < |segs| :: Understood(segs[i])
  }

  datatype Line = Nothing | Exception | Pattern(segs: seq<Text>) | NotInterpreted

  function ReadLine(raw: Text): Line {
    var line := Trim(raw);
    if line == [] || line[0] == HASH then Nothing
    else if line[0] == BANG then Exception
    else if IsPattern(Segments(line)) then Pattern(Segments(line))
    else NotInterpreted
  }

  // ---------------------------------------------------------------- the file

  datatype Rules = Rules(patterns: seq<seq<Text>>, notes: nat, disabled: bool)

  const NONE := Rules([], 0, false)

  function Take(r: Rules, line: Line): Rules {
    match line
    case Nothing => r
    case Exception => r.(disabled := true, notes := r.notes + 1)
    case Pattern(segs) => r.(patterns := r.patterns + [segs])
    case NotInterpreted => r.(notes := r.notes + 1)
  }

  function TakeAll(r: Rules, lines: seq<Text>): Rules
    decreases |lines|
  {
    if lines == [] then r else TakeAll(Take(r, ReadLine(lines[0])), lines[1..])
  }

  /** An exception anywhere takes every pattern away. */
  function Parsed(text: Text): Rules {
    var r := TakeAll(NONE, SplitAt(text, NEWLINE));
    if r.disabled then r.(patterns := []) else r
  }

  method Parse(text: Text) returns (r: Rules)
    ensures r == Parsed(text)
  {
    var lines := SplitAt(text, NEWLINE);
    r := NONE;
    assert lines[0..] == lines;
    for i := 0 to |lines|
      invariant TakeAll(NONE, lines) == TakeAll(r, lines[i..])
    {
      assert lines[i..][1..] == lines[i + 1..];
      var line := Trim(lines[i]);
      if line == [] || line[0] == HASH {
        continue;
      }
      if line[0] == BANG {
        r := r.(disabled := true, notes := r.notes + 1);
        continue;
      }
      var segs := Segments(line);
      if IsPattern(segs) {
        r := r.(patterns := r.patterns + [segs]);
      } else {
        r := r.(notes := r.notes + 1);
      }
    }
    if r.disabled {
      r := r.(patterns := []);
    }
  }

  // ---------------------------------------------------------------- which paths

  predicate Excludes(patterns: seq<seq<Text>>, path: Path) {
    exists i, k | 0 <= i < |patterns| && 1 <= k <= |path| :: SegMatch(patterns[i], path[..k])
  }

  /** The pattern means the path itself or one of the folders it is in. */
  ghost predicate Meant(pattern: seq<Text>, path: Path) {
    exists k :: 1 <= k <= |path| && Means(SegmentFits(), pattern, path[..k])
  }

  lemma ExcludesIsItsMeaning(patterns: seq<seq<Text>>, path: Path)
    ensures Excludes(patterns, path) <==> exists p <- patterns :: Meant(p, path)
  {
    hide SegMatch, Means;
    forall i, k | 0 <= i < |patterns| && 1 <= k <= |path|
      ensures SegMatch(patterns[i], path[..k]) <==> Means(SegmentFits(), patterns[i], path[..k])
    {
      SegMatchIsItsMeaning(patterns[i], path[..k]);
    }
    if p :| p in patterns && Meant(p, path) {
      var i :| 0 <= i < |patterns| && patterns[i] == p;
      var k :| 1 <= k <= |path| && Means(SegmentFits(), patterns[i], path[..k]);
      assert SegMatch(patterns[i], path[..k]);
    }
    if i, k :| 0 <= i < |patterns| && 1 <= k <= |path| && SegMatch(patterns[i], path[..k]) {
      assert Means(SegmentFits(), patterns[i], path[..k]);
      assert patterns[i] in patterns && Meant(patterns[i], path);
    }
  }

  /** What is excluded stays excluded further down, and with more patterns. */
  lemma ExcludesMore(patterns: seq<seq<Text>>, more: seq<seq<Text>>, path: Path, below: Path)
    requires Excludes(patterns, path)
    ensures Excludes(patterns, path + below)
    ensures Excludes(patterns + more, path) && Excludes(more + patterns, path)
  {
    hide SegMatch;
    var i, k :| 0 <= i < |patterns| && 1 <= k <= |path| && SegMatch(patterns[i], path[..k]);
    assert (path + below)[..k] == path[..k];
    assert (patterns + more)[i] == patterns[i] && (more + patterns)[|more| + i] == patterns[i];
  }

  // ---------------------------------------------------------------- what the file as a whole does

  lemma {:induction false} TakeAllSees(r: Rules, lines: seq<Text>)
    ensures var t := TakeAll(r, lines);
            && (t.disabled <==> r.disabled || exists i :: 0 <= i < |lines| && ReadLine(lines[i]).Exception?)
            && (forall segs :: segs in t.patterns <==>
                  segs in r.patterns || exists i :: 0 <= i < |lines| && ReadLine(lines[i]) == Pattern(segs))
    decreases |lines|
  {
    if lines != [] {
      hide ReadLine;
      var s := Take(r, ReadLine(lines[0]));
      TakeAllSees(s, lines[1..]);
      assert lines == [lines[0]] + lines[1..];
      assert forall i :: 0 < i < |lines| ==> lines[i] == lines[1..][i - 1];
    }
  }

  /** A path is excluded exactly when no line is an exception and some line's pattern means it or a folder of it. */
  lemma ParsedExcludesIff(text: Text, path: Path)
    ensures Excludes(Parsed(text).patterns, path)
       <==> && !(exists line <- SplitAt(text, NEWLINE) :: ReadLine(line).Exception?)
            && exists line <- SplitAt(text, NEWLINE) :: ReadLine(line).Pattern? && Meant(ReadLine(line).segs, path)
  {
    var lines := SplitAt(text, NEWLINE);
    var ps := Parsed(text).patterns;
    TakeAllSees(NONE, lines);
    ExcludesIsItsMeaning(ps, path);
    hide Meant, ReadLine, SplitAt, TakeAll, Excludes;
    if p :| p in ps && Meant(p, path) {
      var j :| 0 <= j < |lines| && ReadLine(lines[j]) == Pattern(p);
      assert lines[j] in lines;
    }
  }

  // ---------------------------------------------------------------- a file as it is written

  /** A path is written with or without a slash in front of it and behind it. */
  datatype Body =
    | Empty
    | Comment(text: Text)
    | Except(text: Text)
    | Names(rooted: bool, segs: seq<Text>, folder: bool)

  datatype Written = Written(before: Text, body: Body, after: Text)

  function Joined(segs: seq<Text>): Text {
    if segs == [] then [] else if |segs| == 1 then segs[0] else segs[0] + [SLASH] + Joined(segs[1..])
  }

  function BodyText(b: Body): Text {
    match b
    case Empty => []
    case Comment(text) => [HASH] + text
    case Except(text) => [BANG] + text
    case Names(rooted, segs, folder) =>
      (if rooted then [SLASH] else []) + Joined(segs) + (if folder then [SLASH] else [])
  }

  function WrittenText(w: Written): Text {
    w.before + BodyText(w.body) + w.after
  }

  predicate GoodSegments(segs: seq<Text>) {
    forall i :: 0 <= i < |segs| ==> segs[i] != [] && SLASH !in segs[i]
  }

  predicate GoodWritten(w: Written) {
    && AllWhite(w.before) && Trimmed(BodyText(w.body)) && AllWhite(w.after) && NEWLINE !in WrittenText(w)
    && match w.body
       case Names(rooted, segs, folder) =>
         GoodSegments(segs) && (!rooted ==> segs != [] && segs[0][0] !in {HASH, BANG})
       case _ => true
  }

  /** The whole file, each line with its end. */
  function FileText(ws: seq<Written>): Text {
    if ws == [] then [] else WrittenText(ws[0]) + [NEWLINE] + FileText(ws[1..])
  }

  lemma {:induction false} FoundFirst(a: Text, b: Byte, c: Text)
    requires b !in a
    ensures Find(a + [b] + c, b) == |a|
  {
    var s := a + [b] + c;
    assert s[|a|] == b && forall j :: 0 <= j < |a| ==> s[j] == a[j];
  }

  lemma SplitFirst(a: Text, b: Byte, c: Text)
    requires b !in a
    ensures SplitAt(a + [b] + c, b) == [a] + SplitAt(c, b)
  {
    FoundFirst(a, b, c);
    var s := a + [b] + c;
    assert s[..|a|] == a && s[|a| + 1..] == c;
  }

  lemma SplitLast(a: Text, b: Byte)
    requires b !in a
    ensures SplitAt(a, b) == if a == [] then [] else [a]
  {
    assert Find(a, b) == |a|;
  }

  lemma NonEmptyFirst(a: Text, parts: seq<Text>)
    ensures NonEmpty([a] + parts) == (if a == [] then [] else [a]) + NonEmpty(parts)
  {
    assert ([a] + parts)[1..] == parts;
  }

  /** A slash in front, and one behind, change nothing. */
  lemma {:induction false} SegmentsJoined(segs: seq<Text>, folder: bool)
    requires GoodSegments(segs)
    ensures Segments(Joined(segs) + if folder then [SLASH] else []) == segs
  {
    var tail := if folder then [SLASH] else [];
    if segs == [] {
      var none: Text := [];
      Unit(tail);
      Unit(none);
      if folder {
        SplitFirst([], SLASH, []);
        assert [] + [SLASH] + none == [SLASH];
      }
      SplitLast([], SLASH);
      assert NonEmpty([none]) == [];
    } else if |segs| == 1 {
      if folder {
        Unit(segs[0] + [SLASH]);
        SplitFirst(segs[0], SLASH, []);
        SplitLast([], SLASH);
        NonEmptyFirst(segs[0], []);
      } else {
        Unit(segs[0]);
        SplitLast(segs[0], SLASH);
        NonEmptyFirst(segs[0], []);
        assert [segs[0]] + [] == [segs[0]];
      }
      assert segs == [segs[0]];
    } else {
      SegmentsJoined(segs[1..], folder);
      SplitFirst(segs[0], SLASH, Joined(segs[1..]) + tail);
      Assoc(segs[0] + [SLASH], Joined(segs[1..]), tail);
      NonEmptyFirst(segs[0], SplitAt(Joined(segs[1..]) + tail, SLASH));
      assert segs == [segs[0]] + segs[1..];
    }
  }

  lemma SegmentsRooted(t: Text)
    ensures Segments([SLASH] + t) == Segments(t)
  {
    Unit([SLASH]);
    SplitFirst([], SLASH, t);
    NonEmptyFirst([], SplitAt(t, SLASH));
    assert [] + [SLASH] + t == [SLASH] + t;
  }

  lemma NamesRead(rooted: bool, segs: seq<Text>, folder: bool)
    requires GoodSegments(segs)
    ensures Segments(BodyText(Names(rooted, segs, folder))) == segs
  {
    hide Segments;
    var tail := if folder then [SLASH] else [];
    SegmentsJoined(segs, folder);
    SegmentsRooted(Joined(segs) + tail);
    Assoc([SLASH], Joined(segs), tail);
    Unit(Joined(segs));
  }

  /**
    A path whose meaning is certain: it has segments, none of them `.` or `..`, no `?`, `[`, `\` or `{` in them, and
    two stars only as a segment of their own.
   */
  ghost predicate Certain(segs: seq<Text>) {
    && segs != []
    && forall i :: 0 <= i < |segs| ==> segs[i] != Ascii(".") && segs[i] != Ascii("..") && CertainSegment(segs[i])
  }

  ghost predicate CertainSegment(s: Text) {
    && (forall b <- Ascii("?[\\{") :: b !in s)
    && (s == Ascii("**") || !exists a: Text, c: Text :: s == a + Ascii("**") + c)
  }

  lemma StarsIff(s: Text)
    ensures HasStars(s) <==> exists a: Text, c: Text :: s == a + Ascii("**") + c
  {
    assert Ascii("**") == [STAR, STAR];
    if HasStars(s) {
      var i :| 0 <= i < |s| - 1 && s[i] == STAR && s[i + 1] == STAR;
      assert s == s[..i] + [STAR, STAR] + s[i + 2..];
    }
    if a: Text, c: Text :| s == a + Ascii("**") + c {
      assert s[|a|] == STAR && s[|a| + 1] == STAR;
    }
  }

  lemma UnderstoodIff(s: Text)
    ensures Understood(s) <==> s != Ascii(".") && s != Ascii("..") && CertainSegment(s)
  {
    StarsIff(s);
    assert Ascii(".") == [DOT] && Ascii("..") == [DOT, DOT] && Ascii("**") == STARS;
    assert Ascii("?[\\{") == [63, 91, 92, 123];
    hide HasStars, Ascii;
  }

  lemma CertainIff(segs: seq<Text>)
    ensures IsPattern(segs) <==> Certain(segs)
  {
    forall i | 0 <= i < |segs|
      ensures Understood(segs[i]) <==>
              segs[i] != Ascii(".") && segs[i] != Ascii("..") && CertainSegment(segs[i])
    {
      UnderstoodIff(segs[i]);
    }
    hide Understood, CertainSegment, Ascii;
  }

  /** What a line is taken for. */
  function Taken(b: Body): Line {
    match b
    case Except(_) => Exception
    case Names(_, segs, _) => if IsPattern(segs) then Pattern(segs) else NotInterpreted
    case _ => Nothing
  }

  lemma NamesStart(rooted: bool, segs: seq<Text>, folder: bool)
    requires GoodSegments(segs) && (!rooted ==> segs != [] && segs[0][0] !in {HASH, BANG})
    ensures var t := BodyText(Names(rooted, segs, folder));
            t != [] && t[0] !in {HASH, BANG}
  {
    if !rooted {
      assert Joined(segs)[0] == segs[0][0];
    }
  }

  lemma WrittenReads(w: Written)
    requires GoodWritten(w)
    ensures ReadLine(WrittenText(w)) == Taken(w.body)
  {
    var t := BodyText(w.body);
    TrimPadded(w.before, t, w.after);
    match w.body
    case Names(rooted, segs, folder) =>
      NamesRead(rooted, segs, folder);
      NamesStart(rooted, segs, folder);
      hide Segments, BodyText, IsPattern, Trim;
    case _ => hide Segments, IsPattern, Trim;
  }

  function LinesOf(ws: seq<Written>): (r: seq<Text>)
    ensures |r| == |ws| && forall i :: 0 <= i < |ws| ==> r[i] == WrittenText(ws[i])
  {
    if ws == [] then [] else [WrittenText(ws[0])] + LinesOf(ws[1..])
  }

  lemma {:induction false} FileLines(ws: seq<Written>)
    requires forall i :: 0 <= i < |ws| ==> GoodWritten(ws[i])
    ensures SplitAt(FileText(ws), NEWLINE) == LinesOf(ws)
  {
    if ws == [] {
      SplitLast([], NEWLINE);
    } else {
      assert NEWLINE !in WrittenText(ws[0]);
      hide WrittenText, GoodWritten, SplitAt;
      FileLines(ws[1..]);
      SplitFirst(WrittenText(ws[0]), NEWLINE, FileText(ws[1..]));
    }
  }

  lemma TakenAs(b: Body)
    ensures Taken(b).Exception? <==> b.Except?
    ensures Taken(b).Pattern? <==> b.Names? && IsPattern(b.segs)
    ensures Taken(b).Pattern? ==> Taken(b).segs == b.segs
  {
    hide IsPattern;
  }

  /**
    A file as it is written excludes a path exactly when it holds no exception and one of its paths, with a meaning
    that is certain, means that path or a folder it is in. White space around a line, comments, and slashes in front
    of a path or behind it do not matter.
   */
  lemma WrittenExcludesIff(ws: seq<Written>, path: Path)
    requires forall i :: 0 <= i < |ws| ==> GoodWritten(ws[i])
    ensures Excludes(Parsed(FileText(ws)).patterns, path)
       <==> && (forall i :: 0 <= i < |ws| ==> !ws[i].body.Except?)
            && exists i :: 0 <= i < |ws| && ws[i].body.Names? && Certain(ws[i].body.segs)
                           && Meant(ws[i].body.segs, path)
  {
    hide *;
    forall segs: seq<Text> ensures IsPattern(segs) <==> Certain(segs) { CertainIff(segs); }
    var lines := LinesOf(ws);
    FileLines(ws);
    ParsedExcludesIff(FileText(ws), path);
    forall i | 0 <= i < |ws| ensures lines[i] in lines && ReadLine(lines[i]) == Taken(ws[i].body) {
      WrittenReads(ws[i]);
    }
    if line :| line in lines && ReadLine(line).Exception? {
      var i :| 0 <= i < |lines| && lines[i] == line;
      TakenAs(ws[i].body);
      assert ws[i].body.Except?;
    }
    if i :| 0 <= i < |ws| && ws[i].body.Except? {
      TakenAs(ws[i].body);
      assert ReadLine(lines[i]).Exception?;
    }
    if line :| line in lines && ReadLine(line).Pattern? && Meant(ReadLine(line).segs, path) {
      var i :| 0 <= i < |lines| && lines[i] == line;
      TakenAs(ws[i].body);
      assert ws[i].body.Names? && Meant(ws[i].body.segs, path);
    }
    if i :| 0 <= i < |ws| && ws[i].body.Names? && IsPattern(ws[i].body.segs) && Meant(ws[i].body.segs, path) {
      TakenAs(ws[i].body);
      assert ReadLine(lines[i]) == Pattern(ws[i].body.segs);
    }
  }

  /** How many lines a person is told about: each exception, and each path that is not certain. */
  ghost function Told(ws: seq<Written>): nat {
    if ws == [] then 0
    else
      var b := ws[0].body;
      (if b.Except? || (b.Names? && !Certain(b.segs)) then 1 else 0) + Told(ws[1..])
  }

  lemma TakeNotes(r: Rules, w: Written)
    requires GoodWritten(w)
    ensures Take(r, ReadLine(WrittenText(w))).notes
         == r.notes + if w.body.Except? || (w.body.Names? && !Certain(w.body.segs)) then 1 else 0
  {
    WrittenReads(w);
    if w.body.Names? { CertainIff(w.body.segs); }
    hide GoodWritten, ReadLine, IsPattern, Certain, WrittenText;
  }

  lemma TakeFirst(r: Rules, ws: seq<Written>)
    requires ws != []
    ensures TakeAll(r, LinesOf(ws)) == TakeAll(Take(r, ReadLine(WrittenText(ws[0]))), LinesOf(ws[1..]))
  {
    assert LinesOf(ws)[1..] == LinesOf(ws[1..]);
    hide ReadLine, WrittenText, Take;
  }

  lemma {:induction false} NotesTell(r: Rules, ws: seq<Written>)
    requires forall i :: 0 <= i < |ws| ==> GoodWritten(ws[i])
    ensures TakeAll(r, LinesOf(ws)).notes == r.notes + Told(ws)
    decreases |ws|
  {
    if ws != [] {
      TakeFirst(r, ws);
      TakeNotes(r, ws[0]);
      hide GoodWritten, ReadLine, Certain, WrittenText, TakeAll, Take, LinesOf;
      NotesTell(Take(r, ReadLine(WrittenText(ws[0]))), ws[1..]);
    }
  }

  lemma ParsedIs(text: Text)
    ensures var r := TakeAll(NONE, SplitAt(text, NEWLINE));
            Parsed(text).notes == r.notes && Parsed(text).disabled == r.disabled && NONE.notes == 0 && !NONE.disabled
  {
    hide TakeAll, SplitAt;
  }

  /** Nothing is left out silently. */
  lemma NotesAreTold(ws: seq<Written>)
    requires forall i :: 0 <= i < |ws| ==> GoodWritten(ws[i])
    ensures Parsed(FileText(ws)).notes == Told(ws)
    ensures Parsed(FileText(ws)).disabled <==> exists i :: 0 <= i < |ws| && ws[i].body.Except?
  {
    hide *;
    ParsedIs(FileText(ws));
    FileLines(ws);
    NotesTell(NONE, ws);
    TakeAllSees(NONE, LinesOf(ws));
    forall i | 0 <= i < |ws| ensures ReadLine(LinesOf(ws)[i]).Exception? <==> ws[i].body.Except? {
      WrittenReads(ws[i]);
      TakenAs(ws[i].body);
    }
  }
}
