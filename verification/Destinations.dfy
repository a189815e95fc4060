/**
  Where a repository address sends its requests, or that this cannot be said (deploy/src/git.rs): a saved credential
  may only follow an address whose transport, host and port are known and unchanged.
 */
module Destinations {
  import opened Bytes
  import opened Characters

  datatype Transport = Https | Http | Ssh

  datatype Place = Place(transport: Transport, host: string, port: nat)

  function DefaultPort(t: Transport): nat {
    match t
    case Https => 443
    case Http => 80
    case Ssh => 22
  }

  function Scheme(t: Transport): string {
    match t
    case Https => "https://"
    case Http => "http://"
    case Ssh => "ssh://"
  }

  // ---------------------------------------------------------------- text

  predicate Digit(c: char) {
    '0' <= c <= '9'
  }

  predicate Letter(c: char) {
    'a' <= c <= 'z' || 'A' <= c <= 'Z'
  }

  predicate Alnum(c: char) {
    Digit(c) || Letter(c)
  }

  predicate HexDigit(c: char) {
    Digit(c) || 'a' <= c <= 'f' || 'A' <= c <= 'F'
  }

  /** White space and control characters, as the standard library classifies them. */
  predicate Blank(c: char) {
    var n := c as int;
    || n <= 32 || 127 <= n <= 160 || n == 0x1680 || 0x2000 <= n <= 0x200A || n == 0x2028 || n == 0x2029
    || n == 0x202F || n == 0x205F || n == 0x3000
  }

  predicate Readable(c: char) {
    !Blank(c) && c != '\\'
  }

  predicate All(s: string, ok: char -> bool) {
    forall i | 0 <= i < |s| :: ok(s[i])
  }

  function Index(s: string, c: char): (r: nat)
    ensures r <= |s|
    ensures forall j :: 0 <= j < r ==> s[j] != c
    ensures r < |s| ==> s[r] == c
  {
    if s == "" || s[0] == c then 0 else 1 + Index(s[1..], c)
  }

  /** The text before and after the first `c`. */
  function SplitOnce(s: string, c: char): Option<(string, string)> {
    var i := Index(s, c);
    if i == |s| then None else Some((s[..i], s[i + 1..]))
  }

  predicate Contains(s: string, part: string) {
    exists i | 0 <= i <= |s| :: part <= s[i..]
  }

  // ---------------------------------------------------------------- `[user@]host[:port]`

  predicate UserOk(u: string) {
    u != "" && All(u, c => Alnum(c) || c == '.' || c == '_' || c == '~' || c == '-')
  }

  predicate LabelOk(l: string) {
    1 <= |l| <= 63 && l[0] != '-' && l[|l| - 1] != '-' && All(l, c => Alnum(c) || c == '-')
  }

  /** The labels between the dots, from the left. */
  predicate LabelsOk(h: string)
    decreases |h|
  {
    var i := Index(h, '.');
    LabelOk(h[..i]) && (i == |h| || LabelsOk(h[i + 1..]))
  }

  predicate HostOk(h: string) {
    |h| <= 253 && LabelsOk(h)
  }

  function PortOf(p: Option<string>, default: nat): Option<nat> {
    match p
    case None => Some(default)
    case Some(d) =>
      if !(1 <= |d| <= 5 && All(d, Digit)) then None
      else
        var n := Decimal(d);
        if n == 0 || n > 65535 then None else Some(n)
  }

  /** The host as it is compared, and the text of the port if there is one. */
  function HostPort(hp: string): Option<(string, Option<string>)> {
    if hp != "" && hp[0] == '[' then
      match SplitOnce(hp[1..], ']')
      case None => None
      case Some((inner, after)) =>
        if after != "" && after[0] != ':' then None
        else if !(':' in inner && All(inner, c => HexDigit(c) || c == ':' || c == '.')) then None
        else Some(("[" + Lower(inner) + "]", if after == "" then None else Some(after[1..])))
    else
      match SplitOnce(hp, ':')
      case Some((h, p)) => if HostOk(h) then Some((Lower(h), Some(p))) else None
      case None => if HostOk(hp) then Some((Lower(hp), None)) else None
  }

  /** The address without its user. */
  function Addressed(hp: string, default: nat): Option<(string, nat)> {
    match HostPort(hp)
    case None => None
    case Some((host, port)) =>
      match PortOf(port, default)
      case None => None
      case Some(n) => Some((host, n))
  }

  function Authority(a: string, default: nat): Option<(string, nat)> {
    match SplitOnce(a, '@')
    case None => Addressed(a, default)
    case Some((u, rest)) => if '@' in rest || !UserOk(u) then None else Addressed(rest, default)
  }

  // ---------------------------------------------------------------- the address

  function Schemed(url: string): Option<(Transport, string)> {
    if Scheme(Https) <= url then Some((Https, url[8..]))
    else if Scheme(Http) <= url then Some((Http, url[7..]))
    else if Scheme(Ssh) <= url then Some((Ssh, url[6..]))
    else None
  }

  function Destination(url: string): Option<Place> {
    if url == "" || !All(url, Readable) then None
    else
      match Schemed(url)
      case Some((t, rest)) =>
        (match Authority(rest[..Index(rest, '/')], DefaultPort(t))
         case None => None
         case Some((host, port)) => Some(Place(t, host, port)))
      case None =>
        if Contains(url, "://") then None
        else
          match SplitOnce(url, ':')
          case None => None
          case Some((left, path)) =>
            if '/' in left || path == "" then None
            else
              match Authority(left, 22)
              case None => None
              case Some((host, _)) => Some(Place(Ssh, host, 22))
  }

  // ---------------------------------------------------------------- what is read

  /** An address as a person writes it: a user or none, a host, a port or none. */
  function Written(t: Transport, user: Option<string>, host: string, port: Option<string>, path: string): string {
    Scheme(t) + (Named(user, WithPort(host, port)) + ['/'] + path)
  }

  function Named(user: Option<string>, hp: string): string {
    match user
    case None => hp
    case Some(u) => u + ['@'] + hp
  }

  function WithPort(host: string, port: Option<string>): string {
    match port
    case None => host
    case Some(p) => host + [':'] + p
  }

  lemma {:induction false} FirstAt(a: string, c: char, b: string)
    requires c !in a
    ensures Index(a + [c] + b, c) == |a|
    ensures SplitOnce(a + [c] + b, c) == Some((a, b))
  {
    var s := a + [c] + b;
    assert forall j :: 0 <= j < |a| ==> s[j] == a[j];
    assert s[|a|] == c;
    assert s[..|a|] == a && s[|a| + 1..] == b;
  }

  lemma NowhereAt(a: string, c: char)
    requires c !in a
    ensures Index(a, c) == |a| && SplitOnce(a, c) == None
  {
  }

  /** What holds of all characters of two texts holds of the two together. */
  lemma AllOfBoth(a: string, b: string, ok: char -> bool)
    requires All(a, ok) && All(b, ok)
    ensures All(a + b, ok)
  {
  }

  /** Not a slash and not an `@`, and not a character the reader refuses. */
  predicate InAuthority(c: char) {
    Readable(c) && c != '/' && c != '@'
  }

  /** A host is letters, digits, hyphens and dots. */
  lemma {:induction false} HostChars(h: string)
    requires LabelsOk(h)
    ensures h != "" && forall i :: 0 <= i < |h| ==> Alnum(h[i]) || h[i] == '-' || h[i] == '.'
    decreases |h|
  {
    var i := Index(h, '.');
    assert forall j :: 0 <= j < i ==> h[j] == h[..i][j];
    if i < |h| {
      HostChars(h[i + 1..]);
      assert forall j :: i < j < |h| ==> h[j] == h[i + 1..][j - i - 1];
    }
  }

  /** A numeric host in brackets, as a person writes it. */
  predicate Bracketed(h: string) {
    && |h| >= 2 && h[0] == '[' && h[|h| - 1] == ']'
    && var inner := h[1..|h| - 1];
       ':' in inner && All(inner, c => HexDigit(c) || c == ':' || c == '.')
  }

  /**
    Whatever user it names and whether or not it spells out the port, an address with a plain host or one in brackets
    is read as its transport, its host in lower case and its port.
   */
  lemma ReadsWhatIsWritten(t: Transport, user: Option<string>, host: string, port: Option<string>, path: string)
    requires user.Some? ==> UserOk(user.value)
    requires HostOk(host) || Bracketed(host)
    requires PortOf(port, DefaultPort(t)).Some?
    requires All(path, Readable)
    ensures Destination(Written(t, user, host, port, path))
         == Some(Place(t, Lower(host), PortOf(port, DefaultPort(t)).value))
  {
    var a := Named(user, WithPort(host, port));
    var rest := a + ['/'] + path;
    AuthorityReads(user, host, port, DefaultPort(t));
    SchemeReads(t, rest);
    FirstAt(a, '/', path);
    assert rest[..|a|] == a;
    hide Authority, Index, Readable, Schemed, All;
    SlashIsReadable(t);
    AllOfBoth(a, ['/'], Readable);
    AllOfBoth(a + ['/'], path, Readable);
    AllOfBoth(Scheme(t), rest, Readable);
  }

  lemma SlashIsReadable(t: Transport)
    ensures All(Scheme(t), Readable) && All(['/'], Readable)
  {
  }

  lemma AuthorityReads(user: Option<string>, host: string, port: Option<string>, default: nat)
    requires user.Some? ==> UserOk(user.value)
    requires HostOk(host) || Bracketed(host)
    requires PortOf(port, default).Some?
    ensures Authority(Named(user, WithPort(host, port)), default) == Some((Lower(host), PortOf(port, default).value))
    ensures '/' !in Named(user, WithPort(host, port)) && All(Named(user, WithPort(host, port)), Readable)
  {
    var hp := WithPort(host, port);
    HostPortReads(host, port);
    HostPortChars(host, port);
    Bare(hp);
    hide HostPort, HostOk, Bracketed, PortOf, Index, Lower, SplitOnce, Readable, InAuthority, All, UserOk, Authority,
         WithPort;
    match user {
      case None => AuthorityAlone(hp, default);
      case Some(u) => AuthorityAfterUser(u, hp, default);
    }
  }

  lemma Bare(hp: string)
    requires All(hp, InAuthority)
    ensures '@' !in hp && '/' !in hp && All(hp, Readable)
  {
  }

  lemma AuthorityAlone(hp: string, default: nat)
    requires '@' !in hp
    ensures Authority(hp, default) == Addressed(hp, default)
  {
    NowhereAt(hp, '@');
  }

  lemma AuthorityAfterUser(u: string, hp: string, default: nat)
    requires UserOk(u) && '@' !in hp && '/' !in hp && All(hp, Readable)
    ensures Authority(u + ['@'] + hp, default) == Addressed(hp, default)
    ensures '/' !in u + ['@'] + hp && All(u + ['@'] + hp, Readable)
  {
    assert '@' !in u && '/' !in u && All(u + ['@'], Readable);
    hide HostPort, PortOf, All, UserOk, Readable;
    FirstAt(u, '@', hp);
    AllOfBoth(u + ['@'], hp, Readable);
  }

  lemma HostIsPlain(host: string)
    requires HostOk(host) || Bracketed(host)
    ensures All(host, InAuthority)
  {
    if HostOk(host) {
      HostChars(host);
    } else {
      var inner := host[1..|host| - 1];
      assert forall i :: 1 <= i < |host| - 1 ==> host[i] == inner[i - 1];
    }
  }

  lemma HostPortChars(host: string, port: Option<string>)
    requires HostOk(host) || Bracketed(host)
    requires port.Some? ==> All(port.value, Digit)
    ensures All(WithPort(host, port), InAuthority)
  {
    HostIsPlain(host);
    if port.Some? {
      AllOfBoth(host, [':'], InAuthority);
      AllOfBoth(host + [':'], port.value, InAuthority);
    }
  }

  lemma SchemeReads(t: Transport, rest: string)
    ensures Schemed(Scheme(t) + rest) == Some((t, rest))
  {
    var url := Scheme(t) + rest;
    assert url[|Scheme(t)|..] == rest;
    assert t == Http ==> url[4] == ':' && Scheme(Https)[4] == 's';
    assert t == Ssh ==> url[0] == 's' && Scheme(Https)[0] == 'h' && Scheme(Http)[0] == 'h';
  }

  lemma HostPortReads(host: string, port: Option<string>)
    requires HostOk(host) || Bracketed(host)
    requires port.Some? ==> All(port.value, Digit)
    ensures HostPort(WithPort(host, port)) == Some((Lower(host), port))
  {
    if HostOk(host) {
      HostChars(host);
      if port.Some? {
        FirstAt(host, ':', port.value);
      } else {
        NowhereAt(host, ':');
      }
    } else {
      BracketsRead(host, port);
    }
  }

  lemma BracketsRead(host: string, port: Option<string>)
    requires Bracketed(host)
    ensures HostPort(WithPort(host, port)) == Some((Lower(host), port))
  {
    var inner := host[1..|host| - 1];
    var after := if port.Some? then [':'] + port.value else "";
    NoBracket(inner);
    assert host == ['['] + inner + [']'];
    hide *;
    FirstAt(inner, ']', after);
    LowerBrackets(inner);
    Regroup(inner, port);
    BracketParts(inner, after);
  }

  lemma Regroup(inner: string, port: Option<string>)
    ensures var after := if port.Some? then [':'] + port.value else "";
            && WithPort(['['] + inner + [']'], port) == ['['] + (inner + [']'] + after)
            && (port == if after == "" then None else Some(after[1..]))
            && (after == "" || after[0] == ':')
  {
  }

  lemma NoBracket(inner: string)
    requires All(inner, c => HexDigit(c) || c == ':' || c == '.')
    ensures ']' !in inner
  {
  }

  lemma LowerBrackets(inner: string)
    ensures Lower(['['] + inner + [']']) == "[" + Lower(inner) + "]"
  {
  }

  lemma BracketParts(inner: string, after: string)
    requires SplitOnce(inner + [']'] + after, ']') == Some((inner, after)) && (after == "" || after[0] == ':')
    requires ':' in inner && All(inner, c => HexDigit(c) || c == ':' || c == '.')
    ensures HostPort(['['] + (inner + [']'] + after))
         == Some(("[" + Lower(inner) + "]", if after == "" then None else Some(after[1..])))
  {
    hide Index, SplitOnce, Lower, HostOk, HexDigit;
    var rest := inner + [']'] + after;
    var hp := ['['] + rest;
    assert hp[0] == '[' && hp[1..] == rest;
  }

  // ---------------------------------------------------------------- addresses without a scheme

  /** `[user@]host:path`, which ssh reads without a scheme and always at port 22. */
  lemma ReadsScpStyle(user: Option<string>, host: string, path: string)
    requires user.Some? ==> UserOk(user.value)
    requires HostOk(host) && path != "" && All(path, Readable)
    requires !Contains(Named(user, host) + [':'] + path, "://")
    ensures Destination(Named(user, host) + [':'] + path) == Some(Place(Ssh, Lower(host), 22))
  {
    var left := Named(user, host);
    var url := left + [':'] + path;
    assert WithPort(host, None) == host;
    AuthorityReads(user, host, None, 22);
    NoColon(user, host);
    FirstAt(left, ':', path);
    NoScheme(url);
    hide Authority, Index, Readable, Schemed, All, Contains, SplitOnce, HostOk, UserOk, Named;
    assert All([':'], Readable) by { ColonIsReadable(); }
    AllOfBoth(left, [':'], Readable);
    AllOfBoth(left + [':'], path, Readable);
  }

  lemma ColonIsReadable()
    ensures All([':'], Readable)
  {
  }

  lemma NoColon(user: Option<string>, host: string)
    requires HostOk(host) && (user.Some? ==> UserOk(user.value))
    ensures ':' !in Named(user, host)
  {
    HostChars(host);
  }

  /** Every scheme ends in a colon and two slashes. */
  lemma NoScheme(url: string)
    requires !Contains(url, "://")
    ensures Schemed(url) == None
  {
    SchemeShows(url, Https);
    SchemeShows(url, Http);
    SchemeShows(url, Ssh);
    hide Contains, Scheme;
  }

  lemma SchemeShows(url: string, t: Transport)
    ensures Scheme(t) <= url ==> Contains(url, "://")
  {
    var n := |Scheme(t)| - 3;
    assert Scheme(t)[n..] == "://";
    if Scheme(t) <= url {
      assert "://" <= url[n..];
    }
  }

  // ---------------------------------------------------------------- what is read at all

  /** Letters, digits and hyphens, with a hyphen at neither end. */
  predicate GoodLabel(l: string) {
    && 0 < |l| < 64 && (forall i :: 0 <= i < |l| ==> Alnum(l[i]) || (l[i] == '-' && 0 < i < |l| - 1))
  }

  function Dotted(labels: seq<string>): string {
    if labels == [] then "" else if |labels| == 1 then labels[0] else labels[0] + ['.'] + Dotted(labels[1..])
  }

  ghost predicate GoodLabels(labels: seq<string>) {
    labels != [] && forall i :: 0 <= i < |labels| ==> GoodLabel(labels[i])
  }

  /** A name of labels with dots between them. */
  ghost predicate GoodHost(h: string) {
    |h| < 254 && exists labels: seq<string> :: GoodLabels(labels) && h == Dotted(labels)
  }

  lemma LabelIff(l: string)
    ensures LabelOk(l) <==> GoodLabel(l)
  {
  }

  lemma LabelNoDot(l: string)
    requires GoodLabel(l)
    ensures '.' !in l
  {
  }

  lemma {:induction false} LabelsAre(h: string) returns (labels: seq<string>)
    requires LabelsOk(h)
    ensures GoodLabels(labels) && h == Dotted(labels)
    decreases |h|
  {
    hide LabelOk, GoodLabel;
    var i := Index(h, '.');
    LabelIff(h[..i]);
    if i == |h| {
      assert h[..i] == h;
      labels := [h];
    } else {
      var more := LabelsAre(h[i + 1..]);
      labels := [h[..i]] + more;
      assert labels[1..] == more;
      assert h == h[..i] + ['.'] + h[i + 1..];
    }
  }

  lemma {:induction false} LabelsRead(labels: seq<string>)
    requires GoodLabels(labels)
    ensures LabelsOk(Dotted(labels))
    decreases |labels|
  {
    hide LabelOk, GoodLabel;
    LabelIff(labels[0]);
    LabelNoDot(labels[0]);
    var h := Dotted(labels);
    if |labels| == 1 {
      NowhereAt(h, '.');
      assert h[..|h|] == h;
    } else {
      LabelsRead(labels[1..]);
      FirstAt(labels[0], '.', Dotted(labels[1..]));
      assert h[..|labels[0]|] == labels[0] && h[|labels[0]| + 1..] == Dotted(labels[1..]);
    }
  }

  lemma HostIff(h: string)
    ensures HostOk(h) <==> GoodHost(h)
  {
    hide LabelsOk, Dotted, GoodLabels;
    if HostOk(h) { var labels := LabelsAre(h); }
    if GoodHost(h) {
      var labels: seq<string> :| GoodLabels(labels) && h == Dotted(labels);
      LabelsRead(labels);
    }
  }

  /** One to five digits that stand for a port. */
  predicate GoodPort(p: string) {
    0 < |p| < 6 && Numeral(p) && 1 <= Decimal(p) < 0x1_0000
  }

  lemma PortIff(port: Option<string>, default: nat, n: nat)
    ensures PortOf(port, default) == Some(n) <==>
            match port case None => n == default case Some(p) => GoodPort(p) && n == Decimal(p)
  {
  }

  /** A URL, with a path or without, or `[user@]host:path`. */
  datatype Address =
    | Url(transport: Transport, user: Option<string>, host: string, port: Option<string>, path: Option<string>)
    | Scp(user: Option<string>, host: string, repo: string)

  predicate GoodUser(user: Option<string>) {
    user.Some? ==>
      && user.value != ""
      && forall i :: 0 <= i < |user.value| ==> Alnum(user.value[i]) || user.value[i] in "._~-"
  }

  ghost predicate GoodAddress(a: Address) {
    && GoodUser(a.user)
    && match a
       case Url(t, user, host, port, path) =>
         && (GoodHost(host) || Bracketed(host)) && (port.Some? ==> GoodPort(port.value))
         && (path.Some? ==> All(path.value, Readable))
       case Scp(user, host, path) =>
         && GoodHost(host) && path != "" && All(path, Readable) && !Contains(Named(user, host) + [':'] + path, "://")
  }

  function AddressText(a: Address): string {
    match a
    case Url(t, user, host, port, path) =>
      Scheme(t) + (Named(user, WithPort(host, port)) + if path.Some? then ['/'] + path.value else "")
    case Scp(user, host, path) => Named(user, host) + [':'] + path
  }

  /** Where an address leads: the port it names, or the one everybody knows. */
  ghost function PlaceOf(a: Address): Place
    requires GoodAddress(a)
  {
    match a
    case Url(t, user, host, port, path) =>
      Place(t, Lower(host),
            if port.Some? then Decimal(port.value)
            else match t case Https => 443 case Http => 80 case Ssh => 22)
    case Scp(user, host, path) => Place(Ssh, Lower(host), 22)
  }

  lemma UserIff(u: string)
    ensures UserOk(u) <==> GoodUser(Some(u))
  {
  }

  lemma UrlReads(a: Address)
    requires a.Url? && GoodAddress(a)
    ensures Destination(AddressText(a)) == Some(PlaceOf(a))
  {
    var Url(t, user, host, port, path) := a;
    if user.Some? { UserIff(user.value); }
    HostIff(host);
    PortIff(port, DefaultPort(t), PlaceOf(a).port);
    hide HostOk, GoodHost, Bracketed, GoodPort, UserOk, GoodUser, Lower;
    match path {
      case Some(more) =>
        ReadsWhatIsWritten(t, user, host, port, more);
        var hp := Named(user, WithPort(host, port));
        assert hp + (['/'] + more) == hp + ['/'] + more;
      case None => ReadsWithoutPath(t, user, host, port);
    }
  }

  lemma ReadsWithoutPath(t: Transport, user: Option<string>, host: string, port: Option<string>)
    requires user.Some? ==> UserOk(user.value)
    requires HostOk(host) || Bracketed(host)
    requires PortOf(port, DefaultPort(t)).Some?
    ensures Destination(Scheme(t) + (Named(user, WithPort(host, port)) + ""))
         == Some(Place(t, Lower(host), PortOf(port, DefaultPort(t)).value))
  {
    var a := Named(user, WithPort(host, port));
    assert a + "" == a;
    AuthorityReads(user, host, port, DefaultPort(t));
    SchemeReads(t, a);
    NowhereAt(a, '/');
    assert a[..|a|] == a;
    hide Authority, Index, Readable, Schemed, All;
    SlashIsReadable(t);
    AllOfBoth(Scheme(t), a, Readable);
  }

  lemma ScpReads(a: Address)
    requires a.Scp? && GoodAddress(a)
    ensures Destination(AddressText(a)) == Some(PlaceOf(a))
  {
    if a.user.Some? { UserIff(a.user.value); }
    HostIff(a.host);
    hide HostOk, GoodHost, UserOk, GoodUser, Lower, Contains, All;
    ReadsScpStyle(a.user, a.host, a.repo);
  }

  // ---------------------------------------------------------------- and nothing else

  lemma SplitIs(s: string, c: char)
    requires SplitOnce(s, c).Some?
    ensures var (a, b) := SplitOnce(s, c).value; s == a + [c] + b && c !in a
  {
  }

  lemma BracketIs(hp: string) returns (host: string, port: Option<string>)
    requires hp != "" && hp[0] == '[' && HostPort(hp).Some?
    ensures Bracketed(host) && hp == WithPort(host, port) && HostPort(hp).value == (Lower(host), port)
    ensures ':' in hp
  {
    SplitIs(hp[1..], ']');
    var (inner, after) := SplitOnce(hp[1..], ']').value;
    assert ':' in inner && All(inner, c => HexDigit(c) || c == ':' || c == '.') && (after == "" || after[0] == ':');
    assert HostPort(hp).value == ("[" + Lower(inner) + "]", if after == "" then None else Some(after[1..]));
    hide *;
    host := ['['] + inner + [']'];
    port := if after == "" then None else Some(after[1..]);
    LowerBrackets(inner);
    assert hp == ['['] + hp[1..];
    assert hp == ['['] + (inner + [']'] + after);
    Regroup(inner, port);
    assert after == if port.Some? then [':'] + port.value else "";
    BracketedIs(inner);
    assert forall k :: 0 <= k < |inner| ==> hp[k + 1] == inner[k];
  }

  lemma BracketedIs(inner: string)
    requires ':' in inner && All(inner, c => HexDigit(c) || c == ':' || c == '.')
    ensures Bracketed(['['] + inner + [']'])
  {
    var h := ['['] + inner + [']'];
    assert h[1..|h| - 1] == inner;
  }

  lemma HostPortIs(hp: string) returns (host: string, port: Option<string>)
    requires HostPort(hp).Some?
    ensures HostOk(host) || Bracketed(host)
    ensures hp == WithPort(host, port) && HostPort(hp).value == (Lower(host), port)
    ensures ':' !in hp ==> HostOk(host)
  {
    hide HostOk, Lower, Bracketed;
    if hp != "" && hp[0] == '[' {
      hide HostPort, SplitOnce;
      host, port := BracketIs(hp);
    } else {
      if SplitOnce(hp, ':').Some? { SplitIs(hp, ':'); }
      hide SplitOnce;
      match SplitOnce(hp, ':') {
        case Some((h, p)) => host, port := h, Some(p);
        case None => host, port := hp, None;
      }
    }
  }

  lemma AuthorityIs(a: string, default: nat) returns (user: Option<string>, host: string, port: Option<string>)
    requires Authority(a, default).Some?
    ensures (user.Some? ==> UserOk(user.value)) && (HostOk(host) || Bracketed(host))
    ensures a == Named(user, WithPort(host, port))
    ensures Authority(a, default).value.0 == Lower(host) && PortOf(port, default) == Some(Authority(a, default).value.1)
    ensures ':' !in a ==> HostOk(host) && port == None
  {
    hide HostPort, HostOk, Bracketed, PortOf, Lower, UserOk, Index;
    match SplitOnce(a, '@') {
      case None =>
        user := None;
        host, port := HostPortIs(a);
      case Some((u, rest)) =>
        SplitIs(a, '@');
        user := Some(u);
        host, port := HostPortIs(rest);
        assert ':' in rest ==> ':' in a;
    }
    assert port.Some? ==> ':' in WithPort(host, port);
  }

  lemma SchemedIs(url: string)
    requires Schemed(url).Some?
    ensures var (t, rest) := Schemed(url).value; url == Scheme(t) + rest
  {
  }

  /** What `Destination` found in a URL. */
  lemma UrlParts(url: string) returns (t: Transport, a: string, path: Option<string>)
    requires Destination(url).Some? && Schemed(url).Some?
    ensures url == Scheme(t) + (a + if path.Some? then ['/'] + path.value else "")
    ensures Authority(a, DefaultPort(t)).Some?
    ensures var r := Authority(a, DefaultPort(t)).value;
            Destination(url).value == Place(t, r.0, r.1)
    ensures path.Some? ==> All(path.value, Readable)
  {
    UrlStep(url);
    SchemedIs(url);
    hide *;
    var rest := Schemed(url).value.1;
    t := Schemed(url).value.0;
    a, path := PathCut(rest);
    AllBehind(Scheme(t), rest);
    if path.Some? { AllBehind(a + ['/'], path.value); }
  }

  lemma UrlStep(url: string)
    requires Destination(url).Some? && Schemed(url).Some?
    ensures var (t, rest) := Schemed(url).value;
            var r := Authority(rest[..Index(rest, '/')], DefaultPort(t));
            All(url, Readable) && r.Some? && Destination(url).value == Place(t, r.value.0, r.value.1)
  {
    hide Authority, Schemed, Readable, Index, All;
  }

  lemma PathCut(rest: string) returns (a: string, path: Option<string>)
    ensures a == rest[..Index(rest, '/')] && rest == a + if path.Some? then ['/'] + path.value else ""
    ensures path.Some? ==> rest == a + ['/'] + path.value
  {
    var i := Index(rest, '/');
    a := rest[..i];
    if i == |rest| {
      path := None;
      assert a == rest && a + "" == a;
    } else {
      path := Some(rest[i + 1..]);
      hide Index;
      CutAround(rest, i);
      assert a + (['/'] + rest[i + 1..]) == a + ['/'] + rest[i + 1..];
    }
  }

  lemma CutAround(s: string, i: nat)
    requires i < |s|
    ensures s == s[..i] + [s[i]] + s[i + 1..]
  {
  }

  lemma AllBehind(a: string, b: string)
    requires All(a + b, Readable)
    ensures All(b, Readable)
  {
    hide Readable;
    assert forall k :: 0 <= k < |b| ==> b[k] == (a + b)[|a| + k];
  }

  lemma UrlIs(url: string) returns (a: Address)
    requires Destination(url).Some? && Schemed(url).Some?
    ensures a.Url? && GoodAddress(a) && AddressText(a) == url && PlaceOf(a) == Destination(url).value
  {
    var t, authority, path := UrlParts(url);
    var user, host, port := AuthorityIs(authority, DefaultPort(t));
    a := Url(t, user, host, port, path);
    if user.Some? { UserIff(user.value); }
    HostIff(host);
    PortIff(port, DefaultPort(t), Destination(url).value.port);
    hide Destination, Authority, Schemed, HostOk, GoodHost, Bracketed, GoodPort, UserOk, GoodUser, Lower, Readable,
         Index, PortOf, All, Named, WithPort, Scheme;
  }

  lemma ScpParts(url: string) returns (left: string, path: string)
    requires Destination(url).Some? && Schemed(url).None?
    ensures url == left + [':'] + path && ':' !in left && path != "" && !Contains(url, "://")
    ensures Authority(left, 22).Some? && Destination(url).value == Place(Ssh, Authority(left, 22).value.0, 22)
    ensures All(path, Readable)
  {
    SplitIs(url, ':');
    left, path := SplitOnce(url, ':').value.0, SplitOnce(url, ':').value.1;
    assert All(url, Readable);
    hide Authority, Schemed, Readable, SplitOnce, Contains;
    assert forall k :: 0 <= k < |path| ==> path[k] == url[|left| + 1 + k];
  }

  lemma ScpIs(url: string) returns (a: Address)
    requires Destination(url).Some? && Schemed(url).None?
    ensures a.Scp? && GoodAddress(a) && AddressText(a) == url && PlaceOf(a) == Destination(url).value
  {
    var left, path := ScpParts(url);
    var user, host, port := AuthorityIs(left, 22);
    a := Scp(user, host, path);
    if user.Some? { UserIff(user.value); }
    HostIff(host);
    assert WithPort(host, None) == host;
    hide Destination, Authority, Schemed, HostOk, GoodHost, UserOk, GoodUser, Lower, Readable, Contains, Bracketed,
         PortOf, All, Named;
  }

  /** An address says where it leads exactly when it is one of these forms, and then it leads there. */
  lemma DestinationIff(url: string, place: Place)
    ensures Destination(url) == Some(place) <==>
            exists a: Address :: GoodAddress(a) && AddressText(a) == url && PlaceOf(a) == place
  {
    hide Destination, GoodAddress, AddressText, PlaceOf, Schemed;
    if Destination(url) == Some(place) {
      var a;
      if Schemed(url).Some? { a := UrlIs(url); } else { a := ScpIs(url); }
    }
    if a: Address :| GoodAddress(a) && AddressText(a) == url && PlaceOf(a) == place {
      if a.Url? { UrlReads(a); } else { ScpReads(a); }
    }
  }
}
