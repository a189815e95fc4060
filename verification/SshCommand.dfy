/**
  The one shell-parsed string Git is given (deploy-git/src/runner.rs), against the shell that reads it (section 2.2,
  Quoting, of the POSIX Shell Command Language) and against the option reader of ssh_config(5).
 */
module SshCommand {
  import opened Bytes
  import Destinations

  // ---------------------------------------------------------------- what is written

  predicate PlainChar(c: char) {
    Destinations.Alnum(c) || c == '/' || c == '_' || c == '.' || c == '-'
  }

  predicate Plain(s: string) {
    forall i | 0 <= i < |s| :: PlainChar(s[i])
  }

  /** Every quote closes the quoted text, stands escaped, and opens it again. */
  function Escape(s: string): string {
    if s == "" then "" else (if s[0] == '\'' then "'\\''" else [s[0]]) + Escape(s[1..])
  }

  function ShWord(s: string): string {
    if Plain(s) then s else "'" + Escape(s) + "'"
  }

  /** What ssh is meant to read as the value of an option. */
  function Valued(name: string, path: string): string {
    if Plain(path) then name + "=" + path else name + "=\"" + path + "\""
  }

  function SshOption(name: string, path: string): string {
    if Plain(path) then Valued(name, path) else ShWord(Valued(name, path))
  }

  function Spaced(words: seq<string>): string {
    if words == [] then "" else if |words| == 1 then words[0] else words[0] + " " + Spaced(words[1..])
  }

  const KNOWN_HOSTS := "UserKnownHostsFile"

  /** The words before the credential, between its two paths, and after them. */
  const FIRST: seq<string> := ["ssh", "-i"]
  function Opt(value: string): seq<string> {
    ["-o", value]
  }

  function Options(): seq<string> {
    Opt("IdentitiesOnly=yes") + Opt("IdentityAgent=none") + Opt("BatchMode=yes") + Opt("PasswordAuthentication=no")
    + Opt("StrictHostKeyChecking=yes") + ["-o"]
  }

  function Last(): seq<string> {
    Opt("GlobalKnownHostsFile=/dev/null") + Opt("ConnectTimeout=20")
  }

  function SshCommand(dir: string): string {
    Spaced(FIRST + [ShWord(dir + "/id")] + Options() + [SshOption(KNOWN_HOSTS, dir + "/known_hosts")] + Last())
  }

  // ---------------------------------------------------------------- what the shell reads

  datatype Mode = Open | Single | Double

  /** A character the shell does more with than keep it; what it does is not followed here. */
  predicate Special(c: char) {
    || c == '|' || c == '&' || c == ';' || c == '<' || c == '>' || c == '(' || c == ')' || c == '$' || c == '`'
    || c == '\n' || c == '*' || c == '?' || c == '[' || c == '#' || c == '~' || c == '%'
  }

  function Grow(word: Option<string>, s: string): Option<string> {
    Some((if word.Some? then word.value else "") + s)
  }

  function Ended(word: Option<string>): seq<string> {
    if word.Some? then [word.value] else []
  }

  /** The words of `s`, when nothing in it is special; `word` is the one being read. */
  function Words(s: string, word: Option<string>, mode: Mode): Option<seq<string>>
    decreases |s|
  {
    if s == "" then (if mode == Open then Some(Ended(word)) else None)
    else
      var c := s[0];
      match mode
      case Single => if c == '\'' then Words(s[1..], word, Open) else Words(s[1..], Grow(word, [c]), Single)
      case Double =>
        if c == '"' then Words(s[1..], word, Open)
        else if c == '$' || c == '`' then None
        else if c == '\\' && |s| > 1 && s[1] in {'$', '`', '"', '\\'} then Words(s[2..], Grow(word, [s[1]]), Double)
        else Words(s[1..], Grow(word, [c]), Double)
      case Open =>
        if c == ' ' || c == '\t' then
          (match Words(s[1..], None, Open)
           case None => None
           case Some(rest) => Some(Ended(word) + rest))
        else if c == '\'' then Words(s[1..], Grow(word, ""), Single)
        else if c == '"' then Words(s[1..], Grow(word, ""), Double)
        else if c == '\\' then (if |s| == 1 || s[1] == '\n' then None else Words(s[2..], Grow(word, [s[1]]), Open))
        else if Special(c) then None
        else Words(s[1..], Grow(word, [c]), Open)
  }

  /** A character that means itself outside quotes, wherever it stands in a word. */
  predicate Literal(c: char) {
    PlainChar(c) || c == '='
  }

  lemma {:induction false} LiteralReads(s: string, rest: string, word: Option<string>)
    requires s != "" && forall i :: 0 <= i < |s| ==> Literal(s[i])
    ensures Words(s + rest, word, Open) == Words(rest, Grow(word, s), Open)
    decreases |s|
  {
    var t := s + rest;
    assert t[0] == s[0] && t[1..] == s[1..] + rest;
    if |s| == 1 {
      assert s == [s[0]] && s[1..] + rest == rest;
    } else {
      LiteralReads(s[1..], rest, Grow(word, [s[0]]));
      assert [s[0]] + s[1..] == s;
      GrowTwice(word, [s[0]], s[1..]);
    }
  }

  lemma GrowTwice(word: Option<string>, a: string, b: string)
    ensures Grow(Grow(word, a), b) == Grow(word, a + b)
  {
    var w := if word.Some? then word.value else "";
    assert w + a + b == w + (a + b);
  }

  /** Four characters: close, an escaped quote, open again. */
  lemma QuoteReads(rest: string, word: Option<string>)
    ensures Words("'\\''" + rest, word, Single) == Words(rest, Grow(word, "'"), Single)
  {
    var t := "'\\''" + rest;
    var t1, t3 := "\\''" + rest, "'" + rest;
    assert t[0] == '\'' && t[1..] == t1;
    assert Words(t, word, Single) == Words(t1, word, Open);
    assert t1[0] == '\\' && t1[1] == '\'' && t1[2..] == t3;
    assert Words(t1, word, Open) == Words(t3, Grow(word, "'"), Open);
    assert t3[0] == '\'' && t3[1..] == rest;
    assert Words(t3, Grow(word, "'"), Open) == Words(rest, Grow(Grow(word, "'"), ""), Single);
    GrowTwice(word, "'", "");
    assert "'" + "" == "'";
  }

  lemma {:induction false} EscapedReads(s: string, rest: string, word: Option<string>)
    ensures Words(Escape(s) + ("'" + rest), word, Single)
         == Words(rest, if s == "" then word else Grow(word, s), Open)
    decreases |s|
  {
    var end := "'" + rest;
    assert end[1..] == rest;
    if s == "" {
      assert Escape(s) + end == end;
    } else {
      var one, more := if s[0] == '\'' then "'\\''" else [s[0]], Escape(s[1..]);
      assert Escape(s) + end == one + (more + end);
      var next := Grow(word, [s[0]]);
      if s[0] == '\'' {
        QuoteReads(more + end, word);
      } else {
        assert (one + (more + end))[1..] == more + end;
      }
      assert Words(Escape(s) + end, word, Single) == Words(more + end, next, Single);
      EscapedReads(s[1..], rest, next);
      GrowTwice(word, [s[0]], s[1..]);
      assert [s[0]] + s[1..] == s;
      assert s[1..] == "" ==> [s[0]] == s;
    }
  }

  lemma QuoteOpens(rest: string)
    ensures Words("'" + rest, None, Open) == Words(rest, Some(""), Single)
  {
    var t := "'" + rest;
    assert t[0] == '\'' && t[1..] == rest;
    assert "" + "" == "";
  }

  /** Whatever the text, the shell reads its quoted form as that text in one word. */
  lemma WordReads(s: string, rest: string)
    requires s != ""
    ensures Words(ShWord(s) + rest, None, Open) == Words(rest, Some(s), Open)
  {
    if Plain(s) {
      LiteralReads(s, rest, None);
      assert "" + s == s;
    } else {
      hide Escape, Plain, Words;
      var inner := Escape(s) + ("'" + rest);
      assert "'" + Escape(s) + "'" + rest == "'" + inner;
      QuoteOpens(inner);
      EscapedReads(s, rest, Some(""));
      assert "" + s == s;
    }
  }

  // ---------------------------------------------------------------- the whole command

  /** The shell reads `w`, at the start of a word and whatever follows it, as the one word `v`. */
  ghost predicate ReadsAs(w: string, v: string) {
    forall rest: string :: Words(w + rest, None, Open) == Words(rest, Some(v), Open)
  }

  /** Word by word. */
  ghost predicate AllRead(words: seq<string>, values: seq<string>) {
    |words| == |values| && forall i :: 0 <= i < |words| ==> ReadsAs(words[i], values[i])
  }

  lemma AllReadBoth(a: seq<string>, x: seq<string>, b: seq<string>, y: seq<string>)
    requires AllRead(a, x) && AllRead(b, y)
    ensures AllRead(a + b, x + y)
  {
    hide ReadsAs;
  }

  lemma AllReadOne(w: string, v: string)
    requires ReadsAs(w, v)
    ensures AllRead([w], [v])
  {
    hide ReadsAs;
  }

  lemma {:induction false} SpacedReads(words: seq<string>, values: seq<string>)
    requires AllRead(words, values) && words != []
    ensures Words(Spaced(words), None, Open) == Some(values)
    decreases |words|
  {
    hide ReadsAs;
    if |words| == 1 {
      ReadsAlone(words[0], values[0]);
      assert values == [values[0]];
    } else {
      SpacedReads(words[1..], values[1..]);
      ReadsBefore(words[0], values[0], Spaced(words[1..]));
      assert [values[0]] + values[1..] == values;
    }
  }

  lemma ReadsAlone(w: string, v: string)
    requires ReadsAs(w, v)
    ensures Words(w, None, Open) == Some([v])
  {
    assert w + "" == w;
    assert Words(w + "", None, Open) == Words("", Some(v), Open);
  }

  lemma ReadsBefore(w: string, v: string, more: string)
    requires ReadsAs(w, v) && Words(more, None, Open).Some?
    ensures Words(w + " " + more, None, Open) == Some([v] + Words(more, None, Open).value)
  {
    var rest := " " + more;
    assert w + " " + more == w + rest && rest[0] == ' ' && rest[1..] == more;
    assert Words(w + rest, None, Open) == Words(rest, Some(v), Open);
  }

  lemma FixedReads(w: string)
    requires Fixed(w)
    ensures ReadsAs(w, w)
  {
    forall rest: string ensures Words(w + rest, None, Open) == Words(rest, Some(w), Open) {
      LiteralReads(w, rest, None);
      assert "" + w == w;
    }
  }

  predicate Fixed(w: string) {
    w != "" && forall i | 0 <= i < |w| :: Literal(w[i])
  }

  lemma OptionReads(name: string, path: string)
    requires name != "" && Plain(name)
    ensures ReadsAs(SshOption(name, path), Valued(name, path))
  {
    var v := Valued(name, path);
    if Plain(path) {
      assert Fixed(v);
      FixedReads(v);
    } else {
      assert v[|name| + 1] == '"';
      forall rest: string ensures Words(ShWord(v) + rest, None, Open) == Words(rest, Some(v), Open) {
        WordReads(v, rest);
      }
    }
  }

  /** The arguments, for every directory whatever its name: the key is one argument and the known hosts another. */
  function Arguments(dir: string): seq<string> {
    FIRST + [dir + "/id"] + Options() + [Valued(KNOWN_HOSTS, dir + "/known_hosts")] + Last()
  }

  lemma KeyReads(path: string)
    requires path != ""
    ensures ReadsAs(ShWord(path), path)
  {
    forall rest: string ensures Words(ShWord(path) + rest, None, Open) == Words(rest, Some(path), Open) {
      WordReads(path, rest);
    }
  }

  lemma OptReads(v: string)
    requires Fixed(v)
    ensures AllRead(Opt(v), Opt(v))
  {
    FixedReads("-o");
    FixedReads(v);
    hide ReadsAs;
  }

  lemma SomeOptionsRead()
    ensures AllRead(Opt("IdentitiesOnly=yes") + Opt("IdentityAgent=none"),
                    Opt("IdentitiesOnly=yes") + Opt("IdentityAgent=none"))
  {
    OptReads("IdentitiesOnly=yes");
    OptReads("IdentityAgent=none");
    AllReadBoth(Opt("IdentitiesOnly=yes"), Opt("IdentitiesOnly=yes"),
                Opt("IdentityAgent=none"), Opt("IdentityAgent=none"));
  }

  lemma PasswordReads()
    ensures AllRead(Opt("PasswordAuthentication=no"), Opt("PasswordAuthentication=no"))
  {
    hide AllRead, ReadsAs, Opt;
    OptReads("PasswordAuthentication=no");
  }

  lemma CheckingReads()
    ensures AllRead(Opt("StrictHostKeyChecking=yes"), Opt("StrictHostKeyChecking=yes"))
  {
    hide AllRead, ReadsAs, Opt;
    OptReads("StrictHostKeyChecking=yes");
  }

  lemma FiveRead(a: seq<string>, b: seq<string>, c: seq<string>, d: seq<string>, e: seq<string>)
    requires AllRead(a, a) && AllRead(b, b) && AllRead(c, c) && AllRead(d, d) && AllRead(e, e)
    ensures AllRead(a + b + c + d + e, a + b + c + d + e)
  {
    hide AllRead;
    AllReadBoth(a, a, b, b);
    AllReadBoth(a + b, a + b, c, c);
    AllReadBoth(a + b + c, a + b + c, d, d);
    AllReadBoth(a + b + c + d, a + b + c + d, e, e);
  }

  lemma OptionsRead()
    ensures AllRead(Options(), Options())
  {
    hide AllRead, ReadsAs, Opt;
    SomeOptionsRead();
    OptReads("BatchMode=yes");
    PasswordReads();
    CheckingReads();
    FixedReads("-o");
    AllReadOne("-o", "-o");
    FiveRead(Opt("IdentitiesOnly=yes") + Opt("IdentityAgent=none"), Opt("BatchMode=yes"),
             Opt("PasswordAuthentication=no"), Opt("StrictHostKeyChecking=yes"), ["-o"]);
  }

  lemma LastReads()
    ensures AllRead(Last(), Last())
  {
    hide AllRead, ReadsAs, Opt;
    OptReads("GlobalKnownHostsFile=/dev/null");
    OptReads("ConnectTimeout=20");
    AllReadBoth(Opt("GlobalKnownHostsFile=/dev/null"), Opt("GlobalKnownHostsFile=/dev/null"),
                Opt("ConnectTimeout=20"), Opt("ConnectTimeout=20"));
  }

  lemma FirstReads()
    ensures AllRead(FIRST, FIRST)
  {
    FixedReads("ssh");
    FixedReads("-i");
    hide ReadsAs;
  }

  lemma Assembled(first: seq<string>, key: string, keyValue: string, middle: seq<string>, known: string,
                  knownValue: string, last: seq<string>)
    requires AllRead(first, first) && AllRead(middle, middle) && AllRead(last, last)
    requires ReadsAs(key, keyValue) && ReadsAs(known, knownValue)
    ensures Words(Spaced(first + [key] + middle + [known] + last), None, Open)
         == Some(first + [keyValue] + middle + [knownValue] + last)
  {
    hide ReadsAs, AllRead, Spaced, Words;
    AllReadOne(key, keyValue);
    AllReadOne(known, knownValue);
    AllReadBoth(first, first, [key], [keyValue]);
    AllReadBoth(first + [key], first + [keyValue], middle, middle);
    AllReadBoth(first + [key] + middle, first + [keyValue] + middle, [known], [knownValue]);
    AllReadBoth(first + [key] + middle + [known], first + [keyValue] + middle + [knownValue], last, last);
    SpacedReads(first + [key] + middle + [known] + last, first + [keyValue] + middle + [knownValue] + last);
  }

  lemma CommandReads(dir: string)
    ensures Words(SshCommand(dir), None, Open) == Some(Arguments(dir))
  {
    hide ReadsAs, AllRead, ShWord, SshOption, Valued, Spaced, Words, Plain, Options, Last;
    var key, known := dir + "/id", dir + "/known_hosts";
    FirstReads();
    OptionsRead();
    LastReads();
    KeyReads(key);
    NameIsPlain();
    OptionReads(KNOWN_HOSTS, known);
    Assembled(FIRST, ShWord(key), key, Options(), SshOption(KNOWN_HOSTS, known), Valued(KNOWN_HOSTS, known), Last());
  }

  lemma NameIsPlain()
    ensures Plain(KNOWN_HOSTS)
  {
  }

  // ---------------------------------------------------------------- what ssh reads

  predicate Control(c: char) {
    c as int < 32 || 127 <= c as int <= 159
  }

  /** What `Workspace::create` accepts as the path of a workspace. */
  predicate Accepted(path: string) {
    forall i | 0 <= i < |path| :: !Control(path[i]) && path[i] !in {'"', '\\', '$', '%'}
  }

  /** To the closing quote; a backslash may stand before a quote or a backslash, and nothing may follow the quote. */
  function Unquoted(s: string): Option<string> {
    if s == "" then None
    else if s[0] == '"' then (if |s| == 1 then Some("") else None)
    else if s[0] == '\\' && |s| > 1 && s[1] in {'"', '\\'} then
      match Unquoted(s[2..]) case None => None case Some(r) => Some([s[1]] + r)
    else
      match Unquoted(s[1..]) case None => None case Some(r) => Some([s[0]] + r)
  }

  /**
    The one file name an option value gives: in double quotes, or up to white space. A name ssh would expand (`%` and
    `$` anywhere, `~` at its start) or take for more than one is no answer here.
   */
  function FileOf(value: string): Option<string> {
    var name := if value != "" && value[0] == '"' then Unquoted(value[1..])
                else if Plain(value) && value != "" then Some(value) else None;
    match name
    case None => None
    case Some(n) =>
      if n == "" || n[0] == '~' || exists i | 0 <= i < |n| :: n[i] == '%' || n[i] == '$' then None else Some(n)
  }

  lemma {:induction false} UnquotedReads(s: string)
    requires Accepted(s)
    ensures Unquoted(s + "\"") == Some(s)
  {
    var t := s + "\"";
    if s == "" {
      assert t == "\"";
    } else {
      assert t[0] == s[0] && t[1..] == s[1..] + "\"";
      UnquotedReads(s[1..]);
      assert [s[0]] + s[1..] == s;
    }
  }

  /** The value after the equals sign, as it stands in `Valued`. */
  function ValueOf(path: string): string {
    if Plain(path) then path else "\"" + path + "\""
  }

  lemma ValueIsWritten(name: string, path: string)
    ensures Valued(name, path) == name + "=" + ValueOf(path)
  {
    if !Plain(path) {
      assert name + "=\"" + path + "\"" == name + "=" + ("\"" + path + "\"");
    }
  }

  /**
    For every workspace that is accepted ssh looks for the known hosts in exactly `root/cred/known_hosts`, unless the
    path starts with a tilde: then, and only then, it expands it.
   */
  lemma KnownHostsIsRootIff(root: string)
    requires Accepted(root)
    ensures var path := root + "/cred/known_hosts";
            FileOf(ValueOf(path)) == Some(path) <==> root == "" || root[0] != '~'
  {
    var path := root + "/cred/known_hosts";
    assert path[0] == if root == "" then '/' else root[0];
    assert Accepted(path);
    assert !(exists i :: 0 <= i < |path| && (path[i] == '%' || path[i] == '$'));
    if Plain(path) {
      assert path[0] != '"' && path[0] != '~';
    } else {
      var v := "\"" + path + "\"";
      assert v[1..] == path + "\"";
      UnquotedReads(path);
    }
  }

  /** Where the known-hosts option stands among the arguments. */
  const KNOWN_AT: nat := 14

  lemma ArgumentsAt(dir: string)
    ensures |Arguments(dir)| == 19 && Arguments(dir)[2] == dir + "/id"
    ensures Arguments(dir)[KNOWN_AT - 1] == "-o"
    ensures Arguments(dir)[KNOWN_AT] == Valued(KNOWN_HOSTS, dir + "/known_hosts")
  {
    hide Valued;
    var front := FIRST + [dir + "/id"] + Options();
    assert |front| == KNOWN_AT && front[KNOWN_AT - 1] == "-o" && front[2] == dir + "/id";
  }

  /**
    From end to end: of the command of any accepted workspace the shell makes a list of arguments in which the key is
    `root/cred/id` and one option is the known-hosts option. What ssh makes of the value the shell delivers with it is
    exactly `root/cred/known_hosts`, if and only if the path does not start with a tilde.
   */
  lemma CommandNamesItsFilesIff(root: string)
    requires Accepted(root)
    ensures var args := Words(SshCommand(root + "/cred"), None, Open);
            && args.Some? && |args.value| == 19 && args.value[2] == root + "/cred/id"
            && args.value[KNOWN_AT - 1] == "-o"
            && KNOWN_HOSTS + "=" <= args.value[KNOWN_AT]
            && (FileOf(args.value[KNOWN_AT][|KNOWN_HOSTS| + 1..]) == Some(root + "/cred/known_hosts")
                <==> root == "" || root[0] != '~')
  {
    var dir, path := root + "/cred", root + "/cred/known_hosts";
    hide Words, SshCommand, FileOf, Arguments, Valued, ValueOf, Accepted;
    CommandReads(dir);
    ArgumentsAt(dir);
    assert dir + "/id" == root + "/cred/id" && dir + "/known_hosts" == path;
    ValueIsWritten(KNOWN_HOSTS, path);
    KnownHostsIsRootIff(root);
    assert (KNOWN_HOSTS + "=" + ValueOf(path))[|KNOWN_HOSTS| + 1..] == ValueOf(path);
  }
}
