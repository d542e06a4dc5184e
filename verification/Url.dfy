// URLs: the parser, the canonical printer, and the round trip between them; percent-escaping of components.

module Urls {
  import opened Words

  // ---------------------------------------------------------------- C string helpers

  /** The first position of `c` at or after `from`, or the length when there is none. */
  function Find(s: string, c: char, from: nat): (i: nat)
    requires from <= |s|
    ensures from <= i <= |s|
    ensures i < |s| ==> s[i] == c
    ensures forall k :: from <= k < i ==> s[k] != c
    decreases |s| - from
  {
    if from == |s| || s[from] == c then from else Find(s, c, from + 1)
  }

  lemma FindIs(s: string, c: char, from: nat, i: nat)
    requires from <= i <= |s|
    requires forall k :: from <= k < i ==> s[k] != c
    requires i < |s| ==> s[i] == c
    ensures Find(s, c, from) == i
  {
    var r := Find(s, c, from);
    assert !(r < i) && !(i < r);
  }

  /** A character that is not in the front is found where the rest starts with it. */
  lemma FindAfter(front: string, rest: string, c: char, from: nat)
    requires from <= |front| && (forall k :: from <= k < |front| ==> front[k] != c)
    requires rest != "" ==> rest[0] == c
    ensures Find(front + rest, c, from) == |front|
  {
    var s := front + rest;
    assert forall k :: from <= k < |front| ==> s[k] == front[k];
    FindIs(s, c, from, |front|);
  }

  function ToLower(c: char): char {
    if 'A' <= c <= 'Z' then c - 'A' + 'a' else c
  }

  function Lower(s: string): (r: string)
    ensures |r| == |s| && forall i :: 0 <= i < |s| ==> r[i] == ToLower(s[i])
  {
    seq(|s|, i requires 0 <= i < |s| => ToLower(s[i]))
  }

  /** A case-insensitive prefix test. */
  predicate StartsWith(s: string, prefix: string) {
    |prefix| <= |s| && Lower(s[..|prefix|]) == prefix
  }

  predicate Contains(s: string, t: string) {
    exists i :: 0 <= i <= |s| && IsAt(s, i, t)
  }

  predicate IsAt(s: string, i: nat, t: string) {
    i + |t| <= |s| && s[i..i+|t|] == t
  }

  predicate IsDigit(c: char) {
    '0' <= c <= '9'
  }

  function Digit(c: char): (d: nat)
    requires IsDigit(c)
  {
    c as int - '0' as int
  }

  /** The number at the front of a string, and 0 when no digit is there. */
  function Number(s: string): (v: nat) {
    NumberOf(s[..DigitRun(s)])
  }

  function DigitRun(s: string): (n: nat)
    ensures n <= |s|
    ensures forall i :: 0 <= i < n ==> IsDigit(s[i])
    ensures n < |s| ==> !IsDigit(s[n])
  {
    if s == "" || !IsDigit(s[0]) then 0 else 1 + DigitRun(s[1..])
  }

  function NumberOf(ds: string): (v: nat)
    requires forall i :: 0 <= i < |ds| ==> IsDigit(ds[i])
  {
    if ds == "" then 0 else NumberOf(ds[..|ds|-1]) * 10 + Digit(ds[|ds|-1])
  }

  predicate IsBlank(c: char) {
    c == ' ' || 9 as char <= c <= 13 as char
  }

  function SkipBlanks(s: string): string {
    if s != "" && IsBlank(s[0]) then SkipBlanks(s[1..]) else s
  }

  const LONG_MAX := 0x7FFF_FFFF_FFFF_FFFF

  /** The C library's atoi: a long that saturates, then cut to 32 bits. */
  function Atoi(s: string): (v: int) {
    var t := SkipBlanks(s);
    var negative := t != "" && t[0] == '-';
    var n: int := Number(if t != "" && (t[0] == '-' || t[0] == '+') then t[1..] else t);
    ToInt32(if negative then (if n > LONG_MAX + 1 then -LONG_MAX - 1 else -n)
            else if n > LONG_MAX then LONG_MAX else n)
  }

  function ToInt32(v: int): int {
    (v + 0x8000_0000) % 0x1_0000_0000 - 0x8000_0000
  }

  function Itoa(v: nat): (s: string)
    ensures |s| > 0 && forall i :: 0 <= i < |s| ==> IsDigit(s[i])
  {
    if v < 10 then [('0' as int + v) as char] else Itoa(v / 10) + [('0' as int + v % 10) as char]
  }

  lemma {:induction false} NumberOfItoa(v: nat)
    ensures NumberOf(Itoa(v)) == v
  {
    if v >= 10 {
      NumberOfItoa(v / 10);
      assert Itoa(v)[..|Itoa(v)|-1] == Itoa(v / 10);
    }
  }

  lemma {:induction false} DigitRunAll(ds: string)
    requires forall i :: 0 <= i < |ds| ==> IsDigit(ds[i])
    ensures DigitRun(ds) == |ds|
  {
    if ds != "" {
      DigitRunAll(ds[1..]);
    }
  }

  lemma DigitsAreNoBlanks(s: string)
    requires s != "" && IsDigit(s[0])
    ensures SkipBlanks(s) == s
  {
  }

  /** Reading back a printed port gives the port. */
  lemma AtoiItoa(v: nat)
    requires v < 0x8000_0000
    ensures Atoi(Itoa(v)) == v
  {
    hide Itoa, NumberOf, DigitRun, SkipBlanks;
    var s := Itoa(v);
    DigitsAreNoBlanks(s);
    DigitRunAll(s);
    NumberOfItoa(v);
    assert s[..|s|] == s;
  }

  // ---------------------------------------------------------------- parsing and printing as functions

  datatype Parts = Parts(http: bool, user: string, password: string, host: string, port: int, path: string, parameter: string)

  /** The scheme and the position behind it. */
  function Scheme(url: string): (r: Option<(bool, nat)>)
    ensures r.Some? ==> r.value.1 <= |url|
  {
    if StartsWith(url, "http://") then Some((true, 7))
    else if StartsWith(url, "https://") then Some((false, 8))
    else if Contains(url, "://") then None
    else Some((true, 0))
  }

  /** User, password and the position of the host in the part before the path. */
  function Credentials(auth: string): (r: Option<(string, string, nat)>)
    ensures r.Some? ==> r.value.2 <= |auth|
  {
    var at := Find(auth, '@', 0);
    if at == |auth| then Some(("", "", 0))
    else
      var colon := Find(auth, ':', at);
      if colon == |auth| then None else Some((auth[..at], auth[at+1..colon], colon + 1))
  }

  function DefaultPort(http: bool): int {
    if http then 80 else 443
  }

  /** The port after a host that ends at `colon`, unset when neither a port nor a host is there. */
  function PortOf(auth: string, colon: nat, host: string, http: bool): int
    requires colon <= |auth|
  {
    if colon < |auth| then Atoi(auth[colon+1..]) else if host != "" then DefaultPort(http) else -1
  }

  /** Host and port of the part before the path, from behind the credentials on. */
  function HostAndPort(auth: string, start: nat, http: bool): (string, int)
    requires start <= |auth|
  {
    var colon := Find(auth, ':', start);
    var host := auth[start..colon];
    (Lower(host), PortOf(auth, colon, host, http))
  }

  /** Path and parameter of the part from the first slash on. */
  function PathAndParameter(tail: string): (string, string) {
    var question := Find(tail, '?', 0);
    (tail[..question], if question < |tail| then tail[question+1..] else "")
  }

  function PartsOf(http: bool, auth: string, tail: string): Option<Parts> {
    match Credentials(auth)
    case None => None
    case Some((user, password, start)) =>
      var (host, port) := HostAndPort(auth, start, http);
      var (path, parameter) := PathAndParameter(tail);
      Some(Parts(http, user, password, host, port, path, parameter))
  }

  function Split(url: string): Option<Parts> {
    match Scheme(url)
    case None => None
    case Some((http, pos)) =>
      var rest := url[pos..];
      var slash := Find(rest, '/', 0);
      PartsOf(http, rest[..slash], rest[slash..])
  }

  predicate IsValid(p: Parts) {
    && (if p.host == "" then p.user == "" && p.password == "" && !(p.path == "" && (p.port < 0 || p.port >= 65536))
        else 0 < p.port < 65536)
    && !(p.path == "" && p.parameter != "")
  }

  function Accepted(url: string): Option<Parts> {
    var r := Split(url);
    if r.Some? && IsValid(r.value) then r else None
  }

  function SchemeText(http: bool): string {
    if http then "http://" else "https://"
  }

  function PortText(p: Parts): string {
    if 0 < p.port < 65536 && (p.host == "" || p.port != DefaultPort(p.http)) then ":" + Itoa(p.port) else ""
  }

  function CredentialText(p: Parts): string {
    if p.user != "" || p.password != "" then p.user + "@" + p.password + ":" else ""
  }

  function PathText(p: Parts): string {
    p.path + if p.parameter != "" then "?" + p.parameter else ""
  }

  /** The canonical URL of the parts. */
  function Printed(p: Parts): string {
    (if p.host != "" then SchemeText(p.http) + CredentialText(p) + p.host else "") + PortText(p) + PathText(p)
  }

  // ---------------------------------------------------------------- the round trip

  /** What the parser guarantees about the separators inside the parts. */
  predicate Separated(p: Parts) {
    && '/' !in p.user && '/' !in p.password && '/' !in p.host
    && '@' !in p.user && ':' !in p.password && ':' !in p.host
    && Lower(p.host) == p.host
    && (p.path != "" ==> p.path[0] == '/') && '?' !in p.path
  }

  lemma LowerTwice(s: string)
    ensures Lower(Lower(s)) == Lower(s)
  {
  }

  lemma LowerAdds(s: string, c: char)
    requires c !in s && !('a' <= c <= 'z')
    ensures c !in Lower(s)
  {
    forall i | 0 <= i < |s| ensures Lower(s)[i] != c {
      assert s[i] in s;
    }
  }

  lemma SplitSeparates(url: string)
    requires Split(url).Some?
    ensures Separated(Split(url).value)
  {
    hide Find, Credentials, HostAndPort, PathAndParameter, Separated, Scheme;
    var Some((http, pos)) := Scheme(url);
    var rest := url[pos..];
    var slash := Find(rest, '/', 0);
    assert '/' !in rest[..slash];
    PartsSeparate(http, rest[..slash], rest[slash..]);
  }

  lemma PartsSeparate(http: bool, auth: string, tail: string)
    requires '/' !in auth && (tail != "" ==> tail[0] == '/') && PartsOf(http, auth, tail).Some?
    ensures Separated(PartsOf(http, auth, tail).value)
  {
    hide Find, Lower, Atoi;
    var Some((user, password, start)) := Credentials(auth);
    var colon := Find(auth, ':', start);
    var host := auth[start..colon];
    assert forall k :: 0 <= k < |host| ==> host[k] == auth[start+k];
    assert '/' !in host && ':' !in host;
    LowerAdds(host, '/');
    LowerAdds(host, ':');
    LowerTwice(host);
    var question := Find(tail, '?', 0);
    assert question > 0 ==> tail[0] == '/';
  }

  /** The scheme of a canonical URL is read back. */
  lemma SchemeOfPrinted(http: bool, rest: string)
    ensures Scheme(SchemeText(http) + rest) == Some((http, |SchemeText(http)|))
  {
    var url := SchemeText(http) + rest;
    var text := SchemeText(http);
    assert url[..|text|] == text;
    assert Lower(text) == text;
    if !http {
      assert url[..7][4] == 's';
    }
  }

  lemma CredentialsSplit(user: string, password: string, rest: string)
    requires '@' !in user && ':' !in password
    ensures Credentials(user + "@" + password + ":" + rest) == Some((user, password, |user| + |password| + 2))
  {
    hide Find;
    var auth := user + "@" + password + ":" + rest;
    var front := user + "@" + password;
    assert auth == user + ("@" + password + ":" + rest);
    FindAfter(user, "@" + password + ":" + rest, '@', 0);
    assert auth == front + (":" + rest);
    assert forall k :: |user| < k < |front| ==> front[k] == password[k-|user|-1];
    assert front[|user|] == '@';
    FindAfter(front, ":" + rest, ':', |user|);
    assert auth[..|user|] == user && auth[|user|+1..|front|] == password;
  }

  /** The credentials of a canonical URL are read back. */
  lemma CredentialsOfPrinted(p: Parts, rest: string)
    requires Separated(p)
    requires p.user != "" || p.password != "" || '@' !in rest
    ensures Credentials(CredentialText(p) + rest) == Some((p.user, p.password, |CredentialText(p)|))
  {
    if p.user != "" || p.password != "" {
      CredentialsSplit(p.user, p.password, rest);
    } else {
      assert CredentialText(p) + rest == rest;
      FindIs(rest, '@', 0, |rest|);
    }
  }

  lemma PathOfPrinted(p: Parts)
    requires Separated(p) && (p.path == "" ==> p.parameter == "")
    ensures PathAndParameter(PathText(p)) == (p.path, p.parameter)
    ensures PathText(p) != "" ==> PathText(p)[0] == '/'
  {
    hide Find;
    if p.parameter != "" {
      FindAfter(p.path, "?" + p.parameter, '?', 0);
      assert PathText(p)[..|p.path|] == p.path && PathText(p)[|p.path|+1..] == p.parameter;
    } else {
      FindAfter(p.path, "", '?', 0);
      assert PathText(p) == p.path && p.path + "" == p.path;
    }
  }

  lemma PortOfPrinted(p: Parts, front: string)
    requires p.host != "" && 0 < p.port < 65536 && ':' !in p.host && Lower(p.host) == p.host
    ensures HostAndPort(front + (p.host + PortText(p)), |front|, p.http) == (p.host, p.port)
  {
    hide Find, Atoi, Itoa, Lower;
    var before, text := front + p.host, PortText(p);
    var auth, colon := before + text, |before|;
    assert front + (p.host + text) == auth;
    assert forall k :: |front| <= k < colon ==> before[k] == p.host[k-|front|];
    FindAfter(before, text, ':', |front|);
    assert auth[|front|..colon] == p.host;
    if text != "" {
      assert auth[colon+1..] == Itoa(p.port);
      AtoiItoa(p.port);
    }
  }

  /** The text between scheme and path is cut off at the first slash. */
  lemma CutAtPath(http: bool, auth: string, tail: string)
    requires '/' !in auth && (tail != "" ==> tail[0] == '/')
    ensures Split(SchemeText(http) + (auth + tail)) == PartsOf(http, auth, tail)
  {
    hide Find, Scheme, PartsOf, SchemeText;
    SchemeOfPrinted(http, auth + tail);
    assert (SchemeText(http) + (auth + tail))[|SchemeText(http)|..] == auth + tail;
    FindAfter(auth, tail, '/', 0);
    assert (auth + tail)[..|auth|] == auth && (auth + tail)[|auth|..] == tail;
  }

  /** Splitting a canonical URL splits the part between scheme and path, and the part behind it. */
  lemma SplitOfPrinted(p: Parts)
    requires Separated(p) && IsValid(p) && p.host != ""
    ensures Split(Printed(p)) == PartsOf(p.http, CredentialText(p) + (p.host + PortText(p)), PathText(p))
  {
    hide *;
    var auth, tail := CredentialText(p) + (p.host + PortText(p)), PathText(p);
    NoSlash(p);
    PathStartsWithSlash(p);
    CutAtPath(p.http, auth, tail);
    PrintedWithHost(p);
    assert SchemeText(p.http) + CredentialText(p) + p.host + PortText(p) + tail == SchemeText(p.http) + (auth + tail);
  }

  lemma PathStartsWithSlash(p: Parts)
    requires Separated(p) && IsValid(p)
    ensures PathText(p) != "" ==> PathText(p)[0] == '/'
  {
  }

  lemma PrintedWithHost(p: Parts)
    requires p.host != ""
    ensures Printed(p) == SchemeText(p.http) + CredentialText(p) + p.host + PortText(p) + PathText(p)
  {
    hide SchemeText, CredentialText, PortText, PathText;
  }

  /** There are credentials in front of the host, or the host has no '@' to be taken for their end. */
  predicate ClearHost(p: Parts) {
    p.user != "" || p.password != "" || '@' !in p.host
  }

  /** Splitting a canonical URL with a host gives back its parts. */
  lemma SplitPrinted(p: Parts)
    requires Separated(p) && IsValid(p) && p.host != "" && ClearHost(p)
    ensures Split(Printed(p)) == Some(p)
  {
    hide Split, Printed, Credentials, HostAndPort, PathAndParameter, CredentialText, PortText, PathText;
    SplitOfPrinted(p);
    NoSlash(p);
    CredentialsOfPrinted(p, p.host + PortText(p));
    PortOfPrinted(p, CredentialText(p));
    PathOfPrinted(p);
  }

  lemma NoSlash(p: Parts)
    requires Separated(p)
    ensures '/' !in CredentialText(p) + (p.host + PortText(p))
    ensures '@' !in PortText(p)
  {
  }

  /** Without credentials, an '@' in the host is taken for the end of a user name. */
  lemma AtInHostIsMisread(p: Parts)
    requires Separated(p) && IsValid(p) && p.host != ""
    requires p.user == "" && p.password == "" && '@' in p.host
    ensures Split(Printed(p)) != Some(p)
  {
    hide Find, Split, Printed, PortText, PathText, HostAndPort, PathAndParameter;
    var text := PortText(p);
    var auth := p.host + text;
    SplitOfPrinted(p);
    assert CredentialText(p) + auth == auth;
    var k :| 0 <= k < |p.host| && p.host[k] == '@';
    assert auth[k] == '@';
    if Split(Printed(p)) == Some(p) {
      EmptyCredentials(auth);
      ShortHost(p.host, text);
      LonelyAt(p);
    }
  }

  lemma ShortHost(host: string, text: string)
    requires host != "" && ':' !in host && |host + text| > 1 && (host + text)[1] == ':'
    ensures |host| == 1
  {
  }

  lemma EmptyCredentials(auth: string)
    requires '@' in auth && Credentials(auth).Some? && Credentials(auth).value.0 == Credentials(auth).value.1 == ""
    ensures Credentials(auth).value.2 == 2 <= |auth| && auth[0] == '@' && auth[1] == ':'
  {
    var at := Find(auth, '@', 0);
    assert |auth[..at]| == 0;
    var colon := Find(auth, ':', at);
    assert |auth[at+1..colon]| == 0;
  }

  /** Behind "@:" there are only the digits of a port, and so no host "@". */
  lemma LonelyAt(p: Parts)
    requires |p.host| == 1 && p.host[0] == '@' && PortText(p) != ""
    ensures HostAndPort(p.host + PortText(p), 2, p.http).0 != p.host
  {
    hide PortText, Find;
    var auth := p.host + PortText(p);
    var host := auth[2..Find(auth, ':', 2)];
    PortIsDigits(p);
    if host != "" {
      assert host[0] == PortText(p)[1];
      assert Lower(host)[0] == ToLower(host[0]);
    }
  }

  lemma PortIsDigits(p: Parts)
    ensures forall i :: 1 <= i < |PortText(p)| ==> IsDigit(PortText(p)[i])
  {
  }

  // ---------------------------------------------------------------- canonical URLs without a host

  lemma FirstOfPrefix(s: string, prefix: string)
    requires prefix != ""
    ensures StartsWith(s, prefix) ==> s != "" && ToLower(s[0]) == prefix[0]
  {
  }

  lemma SchemeOfHostless(text: string)
    requires text == "" || text[0] in {':', '/'}
    ensures Scheme(text) == if Contains(text, "://") then None else Some((true, 0))
  {
    FirstOfPrefix(text, "http://");
    FirstOfPrefix(text, "https://");
  }

  /** A text without a scheme is cut at the first slash from its start. */
  lemma CutWithoutScheme(auth: string, tail: string)
    requires '/' !in auth && (tail != "" ==> tail[0] == '/') && Scheme(auth + tail) == Some((true, 0))
    ensures Split(auth + tail) == PartsOf(true, auth, tail)
  {
    hide Find, Scheme, PartsOf;
    FindAfter(auth, tail, '/', 0);
    assert (auth + tail)[0..] == auth + tail && (auth + tail)[..|auth|] == auth && (auth + tail)[|auth|..] == tail;
  }

  lemma RefusedWithoutScheme(url: string)
    requires Scheme(url) == None
    ensures Split(url) == None
  {
  }

  lemma PrintedWithoutHost(p: Parts)
    requires p.host == ""
    ensures Printed(p) == PortText(p) + PathText(p)
    ensures PortText(p) != "" ==> PortText(p)[0] == ':'
  {
    hide Itoa, PathText;
  }

  /** Without a host, the canonical URL is a port and a path, and is read as http unless it has "://" in it. */
  lemma SplitOfHostless(p: Parts)
    requires Separated(p) && IsValid(p) && p.host == ""
    ensures Split(Printed(p)) == if Contains(Printed(p), "://") then None else PartsOf(true, PortText(p), PathText(p))
  {
    hide *;
    var auth, tail := PortText(p), PathText(p);
    PathStartsWithSlash(p);
    PrintedWithoutHost(p);
    PortHasNoSlash(p);
    SchemeOfHostless(auth + tail);
    if Contains(auth + tail, "://") {
      RefusedWithoutScheme(auth + tail);
    } else {
      CutWithoutScheme(auth, tail);
    }
  }

  lemma PortHasNoSlash(p: Parts)
    ensures '/' !in PortText(p)
  {
  }

  /** What is read there is what was printed, with the http scheme and without a port that was not printed. */
  lemma PartsOfHostless(p: Parts)
    requires Separated(p) && IsValid(p) && p.host == ""
    ensures PartsOf(true, PortText(p), PathText(p)) == Some(p.(http := true, port := if 0 < p.port < 65536 then p.port else -1))
  {
    hide Find, PathAndParameter, PathText, Itoa, Atoi;
    var auth := PortText(p);
    PathOfPrinted(p);
    PortIsDigits(p);
    FindIs(auth, '@', 0, |auth|);
    if auth != "" {
      FindIs(auth, ':', 0, 0);
      assert auth[1..] == Itoa(p.port);
      AtoiItoa(p.port);
    } else {
      FindIs(auth, ':', 0, 0);
    }
  }

  // ---------------------------------------------------------------- which canonical URLs round-trip

  /**
   * The canonical URL is read back: with a host, the host must be clear; without one, nothing may be left out
   * of the text (the https scheme, an invalid port) and nothing in the text may look like a scheme.
   */
  predicate ReadsBack(p: Parts) {
    if p.host != "" then ClearHost(p)
    else p.http && (p.port == -1 || 0 < p.port < 65536) && !Contains(Printed(p), "://")
  }

  /** Canonical URLs round-trip: parsing the canonical form of an accepted URL gives the same parts exactly then. */
  lemma RoundTrip(url: string)
    requires Accepted(url).Some?
    ensures
      var p := Accepted(url).value;
      Accepted(Printed(p)) == Some(p) <==> ReadsBack(p)
  {
    hide Split, Separated, Printed, PartsOf, PortText, PathText, Contains;
    var p := Accepted(url).value;
    SplitSeparates(url);
    if p.host == "" {
      SplitOfHostless(p);
      PartsOfHostless(p);
      if p.port == 0 && p.path == "" {
        assert !ReadsBack(p);
      }
    } else if ClearHost(p) {
      SplitPrinted(p);
    } else {
      AtInHostIsMisread(p);
    }
  }

  /** On URLs that are read back, equal canonical strings mean equal parts. */
  lemma CanonicalEquality(a: string, b: string)
    requires Accepted(a).Some? && ReadsBack(Accepted(a).value)
    requires Accepted(b).Some? && ReadsBack(Accepted(b).value)
    ensures Printed(Accepted(a).value) == Printed(Accepted(b).value) <==> Accepted(a) == Accepted(b)
  {
    hide Accepted, Printed, ReadsBack;
    RoundTrip(a);
    RoundTrip(b);
  }

  /** Port 0 is accepted alone and printed as the empty string, which is refused. */
  lemma PortZeroIsLost()
    ensures Accepted(":0") == Some(Parts(true, "", "", "", 0, "", ""))
    ensures Printed(Accepted(":0").value) == "" && Accepted("") == None
  {
    var url := ":0";
    SchemeOfHostless(url);
    NoScheme(url);
    SchemeOfHostless("");
    FindIs(url, '/', 0, 2);
    assert url[0..] == url && url[..2] == url && url[2..] == "";
    FindIs(url, '@', 0, 2);
    FindIs(url, ':', 0, 0);
    assert url[1..] == Itoa(0);
    AtoiItoa(0);
  }

  /** A scheme in front of no host is not printed: what was https is read back as http. */
  lemma HostlessSchemeIsLost()
    ensures Accepted("https:///a") == Some(Parts(false, "", "", "", -1, "/a", ""))
    ensures Accepted(Printed(Accepted("https:///a").value)) == Some(Parts(true, "", "", "", -1, "/a", ""))
  {
    hide Split, PartsOf, Scheme, Contains;
    var p := Parts(false, "", "", "", -1, "/a", "");
    var q := p.(http := true);
    assert PortText(p) == "" && PathText(p) == "/a" && Printed(p) == "/a";
    assert "https:///a" == SchemeText(false) + ("" + "/a");
    CutAtPath(false, "", "/a");
    PartsOfHttps(p);
    SplitOfHostless(p);
    PartsOfHostless(p);
    NoScheme("/a");
  }

  lemma NoScheme(text: string)
    requires |text| < 3
    ensures !Contains(text, "://")
  {
    assert forall i :: 0 <= i <= |text| ==> !IsAt(text, i, "://");
  }

  /** The scheme only decides the default port. */
  lemma PartsOfHttps(p: Parts)
    requires Separated(p) && IsValid(p) && p.host == "" && p.port == -1
    ensures PartsOf(false, "", PathText(p)) == Some(p.(http := false))
  {
    hide Find, PathAndParameter, PathText;
    PathOfPrinted(p);
  }

  // ---------------------------------------------------------------- which URLs are accepted, in plain terms

  lemma ContainsExactly(s: string, t: string)
    ensures Contains(s, t) <==> exists a: string, b: string :: s == a + t + b
  {
    if Contains(s, t) {
      var i :| 0 <= i <= |s| && IsAt(s, i, t);
      assert s == s[..i] + t + s[i+|t|..];
    }
    if a: string, b: string :| s == a + t + b {
      assert s[|a|..|a|+|t|] == t;
      assert IsAt(s, |a|, t);
    }
  }

  /** The character in lower case, spelled out: only the 26 capitals change, each to the letter 32 further on. */
  predicate SameLetter(c: char, lower: char) {
    if 65 <= c as int <= 90 then lower as int == c as int + 32 else lower == c
  }

  lemma LowerExactly(s: string, t: string)
    ensures Lower(s) == t <==> |s| == |t| && forall i :: 0 <= i < |s| ==> SameLetter(s[i], t[i])
  {
    if |s| == |t| {
      assert forall i :: 0 <= i < |s| ==> (SameLetter(s[i], t[i]) <==> ToLower(s[i]) == t[i]);
      if forall i :: 0 <= i < |s| ==> SameLetter(s[i], t[i]) {
        assert Lower(s) == t;
      }
    }
  }

  /** A scheme in any mixture of cases is read; what follows is cut at its first slash. */
  lemma SchemeInAnyCase(prefix: string, http: bool, auth: string, tail: string)
    requires Lower(prefix) == if http then "http://" else "https://"
    requires '/' !in auth && (tail != "" ==> tail[0] == '/')
    ensures Split(prefix + (auth + tail)) == PartsOf(http, auth, tail)
  {
    hide Find, PartsOf;
    var url := prefix + (auth + tail);
    assert url[..|prefix|] == prefix && url[|prefix|..] == auth + tail;
    if !http {
      assert Lower(url[..7])[4] == Lower(prefix)[4];
    }
    hide StartsWith, Contains, Lower;
    FindAfter(auth, tail, '/', 0);
    assert (auth + tail)[..|auth|] == auth && (auth + tail)[|auth|..] == tail;
  }

  /** A host alone is accepted with the default port of its scheme. */
  lemma DefaultPorts(host: string)
    requires host != "" && '/' !in host && ':' !in host && '@' !in host
    ensures Accepted("http://" + host) == Some(Parts(true, "", "", Lower(host), 80, "", ""))
    ensures Accepted("https://" + host) == Some(Parts(false, "", "", Lower(host), 443, "", ""))
  {
    hide Find, PathAndParameter, Split, Contains;
    assert Lower("http://") == "http://" && Lower("https://") == "https://";
    assert "http://" + (host + "") == "http://" + host && "https://" + (host + "") == "https://" + host;
    SchemeInAnyCase("http://", true, host, "");
    SchemeInAnyCase("https://", false, host, "");
    FindIs(host, '@', 0, |host|);
    FindIs(host, ':', 0, |host|);
    assert host[0..|host|] == host;
    NoPath();
  }

  lemma NoPath()
    ensures PathAndParameter("") == ("", "")
  {
  }

  /** Every canonical URL with a sound port, and no parameter without a path, is accepted as its parts. */
  lemma PrintedIsAccepted(p: Parts)
    requires Separated(p) && (p.path == "" ==> p.parameter == "")
    requires if p.host != "" then 0 < p.port < 65536 && (p.user != "" || p.password != "" || '@' !in p.host)
             else && p.http && p.user == "" && p.password == "" && (0 < p.port < 65536 || (p.port == -1 && p.path != ""))
                  && !Contains(Printed(p), "://")
    ensures Accepted(Printed(p)) == Some(p)
  {
    hide Split, Printed, Separated, Contains, PartsOf, PortText, PathText;
    if p.host != "" {
      SplitPrinted(p);
    } else {
      SplitOfHostless(p);
      PartsOfHostless(p);
    }
  }

  /** What can be split is accepted exactly when it is sound in the following sense. */
  lemma AcceptedExactly(url: string)
    requires Split(url).Some?
    ensures
      var p := Split(url).value;
      Accepted(url).Some? <==>
      && (p.host != "" ==> 0 < p.port < 65536)
      && (p.host == "" ==> p.user == "" && p.password == "" && (p.path != "" || 0 <= p.port < 65536))
      && (p.path == "" ==> p.parameter == "")
  {
    hide Split;
  }

  predicate AllBlank(s: string) {
    forall i :: 0 <= i < |s| ==> s[i] as int in {9, 10, 11, 12, 13, 32}
  }

  /** A port is read behind blanks and a sign, up to the first character that is no digit. */
  lemma AtoiReads(blanks: string, sign: string, v: int, rest: string)
    requires AllBlank(blanks) && sign in {"", "+", "-"} && v >= 0 && (rest != "" ==> !('0' <= rest[0] <= '9'))
    ensures
      var r := Atoi(blanks + (sign + (Itoa(v) + rest)));
      var signed := if sign == "-" then -v else v;
      && -0x8000_0000 <= r < 0x8000_0000
      && (-0x8000_0000 <= signed < 0x8000_0000 ==> r == signed)
      && (v < 0x8000_0000_0000_0000 ==> (r - signed) % 0x1_0000_0000 == 0)
      && (v > 0x8000_0000_0000_0000 ==> r == if sign == "-" then 0 else -1)
  {
    assert rest != "" ==> !IsDigit(rest[0]);
    hide *;
    var s, t := blanks + (sign + (Itoa(v) + rest)), sign + (Itoa(v) + rest);
    NumberReads(v, rest);
    SignedNumber(sign, Itoa(v) + rest, v);
    BlanksAreSkipped(blanks, t);
    AtoiOf(s, t, v);
    ClampedInt32(v, sign == "-");
  }

  function Clamped(v: nat, negative: bool): int {
    var n: int := v;
    ToInt32(if negative then (if n > LONG_MAX + 1 then -LONG_MAX - 1 else -n) else if n > LONG_MAX then LONG_MAX else n)
  }

  lemma AtoiOf(s: string, t: string, v: nat)
    requires SkipBlanks(s) == t && t != "" && Number(if t[0] == '-' || t[0] == '+' then t[1..] else t) == v
    ensures Atoi(s) == Clamped(v, t[0] == '-')
  {
    hide SkipBlanks, Number, ToInt32;
  }

  lemma ClampedInt32(v: nat, negative: bool)
    ensures
      var r, signed: int := Clamped(v, negative), if negative then -(v as int) else v;
      && -0x8000_0000 <= r < 0x8000_0000
      && (-0x8000_0000 <= signed < 0x8000_0000 ==> r == signed)
      && (v < 0x8000_0000_0000_0000 ==> (r - signed) % 0x1_0000_0000 == 0)
      && (v > 0x8000_0000_0000_0000 ==> r == if negative then 0 else -1)
  {
    Int32Of(if negative then -(v as int) else v);
    Saturated();
    hide ToInt32;
  }

  lemma NumberReads(v: nat, rest: string)
    requires rest != "" ==> !IsDigit(rest[0])
    ensures Number(Itoa(v) + rest) == v && IsDigit((Itoa(v) + rest)[0])
  {
    hide Itoa, NumberOf, DigitRun;
    DigitRunStops(Itoa(v), rest);
    NumberOfItoa(v);
    assert (Itoa(v) + rest)[..|Itoa(v)|] == Itoa(v);
  }

  lemma SignedNumber(sign: string, number: string, v: nat)
    requires sign in {"", "+", "-"} && number != "" && IsDigit(number[0]) && Number(number) == v
    ensures
      var t := sign + number;
      && t != "" && (IsDigit(t[0]) || t[0] == '+' || t[0] == '-')
      && (t[0] == '-' <==> sign == "-")
      && Number(if t[0] == '-' || t[0] == '+' then t[1..] else t) == v
  {
    hide Number;
    if sign == "" {
      assert sign + number == number;
    } else {
      assert (sign + number)[1..] == number;
    }
  }

  lemma Int32Of(x: int)
    ensures -0x8000_0000 <= ToInt32(x) < 0x8000_0000 && (ToInt32(x) - x) % 0x1_0000_0000 == 0
    ensures -0x8000_0000 <= x < 0x8000_0000 ==> ToInt32(x) == x
  {
  }

  lemma Saturated()
    ensures ToInt32(LONG_MAX) == -1 && ToInt32(-LONG_MAX - 1) == 0
  {
  }

  lemma {:induction false} BlanksAreSkipped(blanks: string, t: string)
    requires AllBlank(blanks)
    requires t != "" && (IsDigit(t[0]) || t[0] == '+' || t[0] == '-')
    ensures SkipBlanks(blanks + t) == t
  {
    if blanks == "" {
      assert blanks + t == t;
    } else {
      assert (blanks + t)[0] == blanks[0] && (blanks + t)[1..] == blanks[1..] + t;
      BlanksAreSkipped(blanks[1..], t);
    }
  }

  lemma {:induction false} DigitRunStops(ds: string, rest: string)
    requires (forall i :: 0 <= i < |ds| ==> IsDigit(ds[i])) && (rest != "" ==> !IsDigit(rest[0]))
    ensures DigitRun(ds + rest) == |ds|
  {
    if ds == "" {
      assert ds + rest == rest;
    } else {
      assert (ds + rest)[0] == ds[0] && (ds + rest)[1..] == ds[1..] + rest;
      DigitRunStops(ds[1..], rest);
    }
  }

  /** Without a digit the port is 0. */
  lemma AtoiWithoutDigits(s: string)
    requires s == "" || !(s[0] as int in {9, 10, 11, 12, 13, 32} || s[0] == '+' || s[0] == '-' || '0' <= s[0] <= '9')
    ensures Atoi(s) == 0
  {
  }

  // ---------------------------------------------------------------- component escaping

  /** The bytes outside the unreserved characters of section 2.3 of RFC 2396. */
  predicate Reserved(b: Byte) {
    !(b in [33, 39, 40, 41, 42, 45, 46, 95, 126] || 48 <= b <= 57 || 65 <= b <= 90 || 97 <= b <= 122)
  }

  function HighDigit(v: int): (b: Byte)
    requires 0 <= v < 16
  {
    if v < 10 then 48 + v else 55 + v
  }

  /** The value of a hex digit, -1 for anything else. */
  function HexValue(b: Byte): (v: int)
    ensures -1 <= v < 16
  {
    if 97 <= b <= 102 then b - 87 else if 65 <= b <= 70 then b - 55 else if 48 <= b <= 57 then b - 48 else -1
  }

  function EscapedByte(b: Byte): (t: seq<Byte>) {
    if Reserved(b) then [37, HighDigit(b / 16), HighDigit(b % 16)] else [b]
  }

  function EscapedComponent(comp: seq<Byte>): seq<Byte> {
    if comp == [] then [] else EscapedByte(comp[0]) + EscapedComponent(comp[1..])
  }

  /** The byte at position `i` of a C string, whose terminator lies behind its last byte. */
  function CharAt(comp: seq<Byte>, i: nat): Byte {
    if i < |comp| then comp[i] else 0
  }

  /**
   * Undoes the escaping of the first `len` bytes of a C string; a percent sign without two hex digits is an error,
   * and digits behind `len` count.
   */
  function Unescaped(comp: seq<Byte>, len: int): Option<seq<Byte>>
    requires len <= |comp|
    decreases |comp|
  {
    if len <= 0 then Some([])
    else if comp[0] != 37 then Prepend(comp[0], Unescaped(comp[1..], len - 1))
    else
      var high, low := HexValue(CharAt(comp, 1)), HexValue(CharAt(comp, 2));
      if high == -1 || low == -1 then None
      else assert HexValue(0) == -1; Prepend(16 * high + low, Unescaped(comp[3..], len - 3))
  }

  function Prepend(b: Byte, r: Option<seq<Byte>>): Option<seq<Byte>> {
    if r.Some? then Some([b] + r.value) else None
  }

  lemma UnescapeFirst(b: Byte, rest: seq<Byte>, len: nat)
    requires len <= |rest|
    ensures Unescaped(EscapedByte(b) + rest, |EscapedByte(b)| + len) == Prepend(b, Unescaped(rest, len))
  {
    hide HexValue, HighDigit;
    var t := EscapedByte(b);
    var s := t + rest;
    HighDigitsInvert(b);
    assert s[|t|..] == rest;
    assert forall j :: 0 <= j < |t| ==> s[j] == t[j];
  }

  lemma HighDigitsInvert(b: Byte)
    ensures HexValue(HighDigit(b / 16)) == b / 16 && HexValue(HighDigit(b % 16)) == b % 16
    ensures 16 * (b / 16) + b % 16 == b
  {
  }

  /** Unescaping inverts escaping, for every component and whatever lies behind it. */
  lemma {:induction false} UnescapeInverts(comp: seq<Byte>, behind: seq<Byte>)
    ensures Unescaped(EscapedComponent(comp) + behind, |EscapedComponent(comp)|) == Some(comp)
  {
    hide EscapedByte, Unescaped;
    if comp == [] {
      NothingToUnescape(EscapedComponent(comp) + behind);
    } else {
      var t, rest := EscapedByte(comp[0]), EscapedComponent(comp[1..]);
      UnescapeInverts(comp[1..], behind);
      UnescapeFirst(comp[0], rest + behind, |rest|);
      assert t + rest + behind == t + (rest + behind);
      assert comp == [comp[0]] + comp[1..];
    }
  }

  lemma NothingToUnescape(comp: seq<Byte>)
    ensures forall len: int :: len <= 0 ==> Unescaped(comp, len) == Some([])
  {
  }

  /** The characters that stay as they are, by section 2.3 of RFC 2396: letters, digits and nine marks. */
  predicate IsUnreserved(b: Byte) {
    || 65 <= b <= 90 || 97 <= b <= 122 || 48 <= b <= 57
    || (b < 128 && b as char in "-_.!~*'()")
  }

  /** Unreserved bytes are kept; any other becomes a percent sign and two digits of "0123456789ABCDEF". */
  lemma EscapedExactly(b: Byte)
    ensures EscapedComponent([b]) ==
            if IsUnreserved(b) then [b]
            else ['%' as int as Byte, "0123456789ABCDEF"[b / 16] as int as Byte, "0123456789ABCDEF"[b % 16] as int as Byte]
  {
    assert [b][1..] == [];
    assert EscapedByte(b) + EscapedComponent([]) == EscapedByte(b);
    DigitLetters(b / 16);
    DigitLetters(b % 16);
  }

  lemma DigitLetters(v: nat)
    requires v < 16
    ensures HighDigit(v) as int == "0123456789ABCDEF"[v] as int
  {
  }

  /** Hex digits of both cases are read; no other byte is one. */
  lemma HexValueExactly(b: Byte, v: nat)
    requires v < 16
    ensures HexValue(b) == v <==> b < 128 && (b as char == "0123456789ABCDEF"[v] || b as char == "0123456789abcdef"[v])
  {
  }

  method EscapeUrlComponent(comp: seq<Byte>, dest: seq<Byte>) returns (dest': seq<Byte>)
    ensures dest' == dest + EscapedComponent(comp)
  {
    hide Reserved, HighDigit;
    dest' := dest;
    for i := 0 to |comp|
      invariant dest' + EscapedComponent(comp[i..]) == dest + EscapedComponent(comp)
    {
      ghost var before, rest := dest', EscapedComponent(comp[i+1..]);
      assert comp[i..][1..] == comp[i+1..];
      if Reserved(comp[i]) {
        dest' := dest' + [37];
        dest' := dest' + [HighDigit(comp[i] / 16)];
        dest' := dest' + [HighDigit(comp[i] % 16)];
      } else {
        dest' := dest' + [comp[i]];
      }
      assert dest' == before + EscapedByte(comp[i]);
      assert before + (EscapedByte(comp[i]) + rest) == dest' + rest;
    }
  }

  method UnescapeUrlComponent(comp: seq<Byte>, len: int, dest: seq<Byte>) returns (ok: bool, dest': seq<Byte>)
    requires len <= |comp|
    ensures ok <==> Unescaped(comp, len).Some?
    ensures ok ==> dest' == dest + Unescaped(comp, len).value
  {
    hide Unescaped;
    dest' := dest;
    var i := 0;
    assert comp[0..] == comp;
    while i < len
      invariant 0 <= i <= |comp|
      invariant Unescaped(comp, len).Some? <==> Unescaped(comp[i..], len - i).Some?
      invariant Unescaped(comp[i..], len - i).Some? ==>
                  dest' + Unescaped(comp[i..], len - i).value == dest + Unescaped(comp, len).value
    {
      var b, next := UnescapeNext(comp, len, i);
      if b.None? {
        return false, dest';
      }
      dest' := dest' + [b.value];
      i := next;
    }
    NothingToUnescape(comp[i..]);
    return true, dest';
  }

  method UnescapeNext(comp: seq<Byte>, len: int, start: nat) returns (b: Option<Byte>, i: nat)
    requires start < len <= |comp|
    ensures b.Some? ==> start < i <= |comp| && Unescaped(comp[start..], len - start) == Prepend(b.value, Unescaped(comp[i..], len - i))
    ensures b.None? ==> Unescaped(comp[start..], len - start) == None
  {
    hide HexValue;
    TerminatorIsNoDigit();
    i := start;
    if comp[i] == 37 {
      i := i + 1;
      var high := HexValue(CharAt(comp, i));
      assert CharAt(comp[start..], 1) == CharAt(comp, i);
      if high == -1 {
        return None, i;
      }
      i := i + 1;
      var low := HexValue(CharAt(comp, i));
      assert CharAt(comp[start..], 2) == CharAt(comp, i);
      if low == -1 {
        return None, i;
      }
      b := Some(16 * high + low);
      assert comp[start..][3..] == comp[i+1..];
    } else {
      b := Some(comp[i]);
      assert comp[start..][1..] == comp[i+1..];
    }
    i := i + 1;
  }

  lemma TerminatorIsNoDigit()
    ensures HexValue(0) == -1
  {
  }

  // ---------------------------------------------------------------- the class

  class Url {
    var http: bool
    var user: string
    var password: string
    var host: string
    var port: int
    var path: string
    var parameter: string
    var url: string
    var hostUrl: string
    var pathUrl: string

    function View(): Parts
      reads this
    {
      Parts(http, user, password, host, port, path, parameter)
    }

    constructor ()
      ensures View() == Parts(true, "", "", "", -1, "", "") && url == ""
    {
      http, user, password, host, port, path, parameter := true, "", "", "", -1, "", "";
      url, hostUrl, pathUrl := "", "", "";
    }

    method Clear()
      modifies this
      ensures View() == Parts(true, "", "", "", -1, "", "") && url == hostUrl == pathUrl == ""
    {
      http, user, password, host, port, path, parameter := true, "", "", "", -1, "", "";
      url, hostUrl, pathUrl := "", "", "";
    }

    /** Parses a URL and, when it is valid, replaces it by its canonical form. */
    method Parse(text: string) returns (ok: bool)
      modifies this
      ensures ok <==> Accepted(text).Some?
      ensures ok ==> View() == Accepted(text).value && url == Printed(View())
      ensures !ok ==> url == text
    {
      hide Printed, Find, PartsOf, IsValid, Lower, Contains;
      Clear();
      url := text;
      var pos := 0;
      if StartsWith(text, "http://") {
        http := true;
        pos := 7;
      } else if StartsWith(text, "https://") {
        http := false;
        pos := 8;
      } else if Contains(text, "://") {
        return false;
      } else {
        http := true;
      }
      var rest := text[pos..];
      var slash := Find(rest, '/', 0);
      ok := ParseParts(rest[..slash], rest[slash..]);
      if !ok || !IsValid(View()) {
        return false;
      }
      UpdateUrl();
    }

    /** Reads the parts on both sides of the first slash. */
    method ParseParts(auth: string, tail: string) returns (ok: bool)
      requires user == password == host == path == parameter == "" && port == -1
      modifies this`user, this`password, this`host, this`port, this`path, this`parameter
      ensures if ok then PartsOf(http, auth, tail) == Some(View()) else PartsOf(http, auth, tail) == None
    {
      hide Find, Credentials, Lower, Atoi;
      var start;
      ok, start := ParseCredentials(auth);
      if !ok {
        return;
      }
      var colon := Find(auth, ':', start);
      host := auth[start..colon];
      if colon < |auth| {
        port := Atoi(auth[colon+1..]);
      } else if |host| != 0 {
        port := if http then 80 else 443;
      }
      ParsePath(tail);
      host := Lower(host);
    }

    method ParseCredentials(auth: string) returns (ok: bool, start: nat)
      requires user == password == ""
      modifies this`user, this`password
      ensures if ok then Credentials(auth) == Some((user, password, start)) else Credentials(auth) == None
    {
      hide Find;
      start := 0;
      var at := Find(auth, '@', 0);
      if at < |auth| {
        user := auth[..at];
        var end := Find(auth, ':', at);
        if end == |auth| {
          return false, 0;
        }
        password := auth[at+1..end];
        start := end + 1;
      }
      return true, start;
    }

    method ParsePath(tail: string)
      requires path == parameter == ""
      modifies this`path, this`parameter
      ensures (path, parameter) == PathAndParameter(tail)
    {
      if |tail| != 0 {
        var question := Find(tail, '?', 0);
        path := tail[..question];
        if question < |tail| {
          parameter := tail[question+1..];
        }
      }
    }

    /** Prints the canonical form, and its host part and path part. */
    method UpdateUrl()
      requires hostUrl == pathUrl == ""
      modifies this`url, this`hostUrl, this`pathUrl
      ensures url == Printed(View())
      ensures pathUrl == PathText(View())
      ensures hostUrl == (if host != "" then SchemeText(http) + host else "") + PortText(View())
    {
      hide SchemeText, CredentialText, PathText;
      url := "";
      if host != "" {
        url := SchemeText(http);
        hostUrl := url;
        PrintCredentials();
        url := url + host;
        hostUrl := hostUrl + host;
      }
      if port > 0 && port < 65536 {
        if host == "" || (http && port != 80) || (!http && port != 443) {
          url := url + (":" + Itoa(port));
          hostUrl := hostUrl + (":" + Itoa(port));
        }
      }
      PrintPath();
    }

    method PrintCredentials()
      modifies this`url
      ensures url == old(url) + CredentialText(View())
    {
      if user != "" || password != "" {
        url := url + (user + "@" + password + ":");
      }
    }

    method PrintPath()
      requires pathUrl == ""
      modifies this`url, this`pathUrl
      ensures url == old(url) + PathText(View()) && pathUrl == PathText(View())
    {
      url := url + path;
      pathUrl := pathUrl + path;
      if parameter != "" {
        url := url + ("?" + parameter);
        pathUrl := pathUrl + ("?" + parameter);
      }
    }
  }
}
