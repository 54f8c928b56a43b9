/**
 * Hostname ownership: the routing of an application (packages/shared/src/traefik.ts) and the handler
 * that changes its domains (apps/api/src/routes/applications.ts), with creation and cloning of rows.
 */
module Hosts {
  import opened Wrappers
  import opened Text
  import opened StableSort

  datatype Redirect = NoRedirect | WwwToRoot | RootToWww

  // ---------------------------------------------------------------- hostnames

  predicate IsLower(c: char) {
    'a' <= c <= 'z'
  }

  predicate IsLowerAlnum(c: char) {
    IsLower(c) || '0' <= c <= '9'
  }

  predicate IsHostChar(c: char) {
    IsLowerAlnum(c) || c == '-' || c == '.'
  }

  /** The Kelvin sign is the one letter outside ASCII that lower-cases to ASCII. */
  function LowerOf(c: char): char {
    if 'A' <= c <= 'Z' then 'a' + (c - 'A') else if c == '\U{212A}' then 'k' else c
  }

  function ToLower(s: string): (r: string)
    ensures |r| == |s|
  {
    seq(|s|, i requires 0 <= i < |s| => LowerOf(s[i]))
  }

  function LowerRun(s: string): (n: nat)
    ensures n <= |s|
  {
    if s == "" || !IsLower(s[0]) then 0 else 1 + LowerRun(s[1..])
  }

  /** `.replace(/^[a-z]+:\/\//, "")`. */
  function DropScheme(s: string): string {
    var n := LowerRun(s);
    if n > 0 && "://" <= s[n..] then s[n + 3..] else s
  }

  /** `.replace(/[/?#].*$/, "")`. */
  function DropPath(s: string): string {
    if s == "" then ""
    else if s[0] in "/?#" && (forall i :: 1 <= i < |s| ==> !IsLineTerminator(s[i])) then ""
    else [s[0]] + DropPath(s[1..])
  }

  function DropFinalDot(s: string): string {
    if s != "" && s[|s| - 1] == '.' then s[..|s| - 1] else s
  }

  function NormalizeHost(input: string): string {
    DropFinalDot(DropPath(DropScheme(ToLower(Trim(input)))))
  }

  /** One label before a dot. */
  predicate IsLabel(s: string) {
    && 1 <= |s| <= 63
    && IsLowerAlnum(s[0]) && IsLowerAlnum(s[|s| - 1])
    && forall i :: 0 <= i < |s| ==> IsLowerAlnum(s[i]) || s[i] == '-'
  }

  predicate IsTopLevel(s: string) {
    2 <= |s| <= 63 && forall i :: 0 <= i < |s| ==> IsLower(s[i])
  }

  /** `(label\.)+tld`. */
  predicate HasLabels(s: string)
    decreases |s|
  {
    var i := IndexOfChar(s, '.');
    i < |s| && IsLabel(s[..i]) && (IsTopLevel(s[i + 1..]) || HasLabels(s[i + 1..]))
  }

  predicate IsValidHostname(s: string) {
    1 <= |s| <= 253 && HasLabels(s)
  }

  lemma {:induction false} HostChars(s: string)
    requires HasLabels(s)
    ensures s != "" && IsLower(s[|s| - 1]) && forall i :: 0 <= i < |s| ==> IsHostChar(s[i])
    decreases |s|
  {
    var i := IndexOfChar(s, '.');
    var rest := s[i + 1..];
    if !IsTopLevel(rest) {
      HostChars(rest);
    }
    assert forall k :: i < k < |s| ==> s[k] == rest[k - i - 1];
    assert forall k :: 0 <= k < i ==> s[k] == s[..i][k];
  }

  lemma {:induction false} NoPathToDrop(s: string)
    requires forall i :: 0 <= i < |s| ==> IsHostChar(s[i])
    ensures DropPath(s) == s
    decreases |s|
  {
    if s != "" {
      NoPathToDrop(s[1..]);
      assert s == [s[0]] + s[1..];
    }
  }

  lemma {:induction false} NoSchemeToDrop(s: string)
    requires forall i :: 0 <= i < |s| ==> IsHostChar(s[i])
    ensures DropScheme(s) == s
  {
    var n := LowerRun(s);
    if n < |s| {
      assert s[n..][0] == s[n] && IsHostChar(s[n]);
    }
  }

  lemma {:induction false} NothingToTrim(s: string)
    requires s != "" && IsHostChar(s[0]) && IsHostChar(s[|s| - 1])
    ensures Trim(s) == s
  {
    assert TrimStart(s) == s;
  }

  lemma {:induction false} NothingToLower(s: string)
    requires forall i :: 0 <= i < |s| ==> IsHostChar(s[i])
    ensures ToLower(s) == s
  {
    assert forall i :: 0 <= i < |s| ==> IsHostChar(s[i]) && ToLower(s)[i] == s[i];
  }

  /** A valid hostname is its own normal form. */
  lemma {:induction false} ValidIsNormal(s: string)
    requires IsValidHostname(s)
    ensures NormalizeHost(s) == s
  {
    hide DropScheme, DropPath, HasLabels, Trim, ToLower;
    HostChars(s);
    NothingToTrim(s);
    NothingToLower(s);
    NoSchemeToDrop(s);
    NoPathToDrop(s);
  }

  ghost predicate AllSpace(s: string) {
    forall i :: 0 <= i < |s| ==> IsSpace(s[i])
  }

  lemma {:induction false} TrimDecorated(lead: string, s: string, trail: string)
    requires AllSpace(lead) && AllSpace(trail) && s != "" && !IsSpace(s[0]) && !IsSpace(s[|s| - 1])
    ensures Trim(lead + s + trail) == s
  {
    hide TrimStart, TrimEnd, IsSpace;
    TrimLead(lead, s + trail);
    assert lead + s + trail == lead + (s + trail);
    TrimTrail(s, trail);
  }

  lemma {:induction false} TrimLead(lead: string, s: string)
    requires AllSpace(lead) && s != "" && !IsSpace(s[0])
    ensures TrimStart(lead + s) == s
    decreases |lead|
  {
    hide IsSpace;
    if lead == "" {
      assert lead + s == s;
    } else {
      assert (lead + s)[1..] == lead[1..] + s;
      TrimLead(lead[1..], s);
    }
  }

  lemma {:induction false} TrimTrail(s: string, trail: string)
    requires AllSpace(trail) && s != "" && !IsSpace(s[|s| - 1])
    ensures TrimEnd(s + trail) == s
    decreases |trail|
  {
    hide IsSpace;
    if trail == "" {
      assert s + trail == s;
    } else {
      assert (s + trail)[..|s + trail| - 1] == s + trail[..|trail| - 1];
      TrimTrail(s, trail[..|trail| - 1]);
    }
  }

  lemma {:induction false} LowerJoins(a: string, b: string)
    ensures ToLower(a + b) == ToLower(a) + ToLower(b)
  {
  }

  predicate IsLetter(c: char) {
    'a' <= c <= 'z' || 'A' <= c <= 'Z'
  }

  lemma {:induction false} LowerRunOf(a: string, b: string)
    requires (forall i :: 0 <= i < |a| ==> IsLower(a[i])) && (b == "" || !IsLower(b[0]))
    ensures LowerRun(a + b) == |a|
    decreases |a|
  {
    if a == "" {
      assert a + b == b;
    } else {
      assert (a + b)[1..] == a[1..] + b;
      LowerRunOf(a[1..], b);
    }
  }

  /** A scheme goes; without one, nothing does. */
  lemma {:induction false} SchemeGoes(scheme: string, rest: string)
    requires scheme != "" && forall i :: 0 <= i < |scheme| ==> IsLower(scheme[i])
    ensures DropScheme(scheme + "://" + rest) == rest
  {
    var s := scheme + "://" + rest;
    assert s == scheme + ("://" + rest);
    LowerRunOf(scheme, "://" + rest);
    assert s[|scheme|..] == "://" + rest;
  }

  lemma {:induction false} NoSchemeStays(host: string, tail: string)
    requires ':' !in host && (tail == "" || (tail[0] != ':' && !IsLower(tail[0])))
    ensures DropScheme(host + tail) == host + tail
  {
    var s := host + tail;
    var n := LowerRun(s);
    LowerRunIsLower(s);
    assert |host| < |s| ==> s[|host|] == tail[0];
    if n < |host| {
      assert s[n..][0] == host[n];
    } else {
      assert n == |host| && s[n..] == tail;
    }
  }

  lemma {:induction false} LowerRunIsLower(s: string)
    ensures forall i :: 0 <= i < LowerRun(s) ==> IsLower(s[i])
  {
    if s != "" && IsLower(s[0]) {
      LowerRunIsLower(s[1..]);
      assert forall i :: 1 <= i < LowerRun(s) ==> s[i] == s[1..][i - 1];
    }
  }

  ghost predicate IsPath(s: string) {
    s == "" || (s[0] in "/?#" && forall i :: 1 <= i < |s| ==> !IsLineTerminator(s[i]))
  }

  lemma {:induction false} PathGoes(host: string, path: string)
    requires (forall i :: 0 <= i < |host| ==> host[i] !in "/?#") && IsPath(path)
    ensures DropPath(host + path) == host
    decreases |host|
  {
    if host == "" {
      assert host + path == path;
    } else {
      assert (host + path)[1..] == host[1..] + path;
      PathGoes(host[1..], path);
      assert host == [host[0]] + host[1..];
    }
  }

  /** What surrounds a host in a pasted address: white space, a scheme, a final dot and a path. */
  datatype Address = Address(lead: string, scheme: string, host: string, dot: bool, path: string, trail: string)

  ghost predicate IsAddress(a: Address) {
    && AllSpace(a.lead) && AllSpace(a.trail)
    && (forall i :: 0 <= i < |a.scheme| ==> IsLetter(a.scheme[i]))
    && a.host != "" && !IsSpace(a.host[0]) && !IsSpace(a.host[|a.host| - 1]) && a.host[|a.host| - 1] != '.'
    && (forall i :: 0 <= i < |a.host| ==> a.host[i] !in "/?#:")
    && IsPath(a.path) && (a.path != "" ==> !IsSpace(a.path[|a.path| - 1]))
  }

  function WrittenAddress(a: Address): string {
    a.lead + Middle(a) + a.trail
  }

  /** However an address is pasted, its host remains, in lower case. */
  lemma {:induction false} AddressIsNormalized(a: Address)
    requires IsAddress(a)
    ensures NormalizeHost(WrittenAddress(a)) == ToLower(a.host)
  {
    hide Trim, ToLower, DropScheme, DropPath, IsSpace, IsLineTerminator, IsAddress, AllSpace;
    MiddleIsTrimmed(a);
    MiddleIsLowered(a);
    var dot, host, path := if a.dot then "." else "", ToLower(a.host), ToLower(a.path);
    SchemeIsDropped(a);
    assert host + (dot + path) == (host + dot) + path;
    LowerParts(a);
    PathGoes(host + dot, path);
    assert host + "" == host;
  }

  function Middle(a: Address): string {
    (if a.scheme == "" then "" else a.scheme + "://") + (a.host + ((if a.dot then "." else "") + a.path))
  }

  lemma {:induction false} MiddleIsLowered(a: Address)
    ensures ToLower(Middle(a)) ==
            Middle(a.(scheme := ToLower(a.scheme), host := ToLower(a.host), path := ToLower(a.path)))
  {
    hide ToLower;
    var dot, scheme := if a.dot then "." else "", if a.scheme == "" then "" else a.scheme + "://";
    LowerJoins(scheme, a.host + (dot + a.path));
    LowerJoins(a.host, dot + a.path);
    LowerJoins(dot, a.path);
    LowerJoins(a.scheme, "://");
    LowerOfMarks();
  }

  lemma {:induction false} LowerOfMarks()
    ensures ToLower("://") == "://" && ToLower(".") == "." && ToLower("") == ""
  {
    LowerKeepsMarks();
    assert ToLower("://") == "://" && ToLower(".") == "." && ToLower("") == "";
  }

  lemma {:induction false} SchemeIsDropped(a: Address)
    requires IsAddress(a)
    ensures DropScheme(ToLower(Middle(a))) == ToLower(a.host) + ((if a.dot then "." else "") + ToLower(a.path))
  {
    hide ToLower, DropScheme, IsSpace, IsLineTerminator, AllSpace;
    MiddleIsLowered(a);
    LowerParts(a);
    var dot, host, path := if a.dot then "." else "", ToLower(a.host), ToLower(a.path);
    var rest := host + (dot + path);
    if a.scheme == "" {
      NoSchemeStays(host, dot + path);
      assert Middle(a.(scheme := ToLower(a.scheme), host := host, path := path)) == rest;
    } else {
      SchemeGoes(ToLower(a.scheme), rest);
      assert Middle(a.(scheme := ToLower(a.scheme), host := host, path := path)) == ToLower(a.scheme) + "://" + rest;
    }
  }

  lemma {:induction false} MiddleIsTrimmed(a: Address)
    requires IsAddress(a)
    ensures Trim(WrittenAddress(a)) == Middle(a)
  {
    hide Trim;
    var middle := Middle(a);
    assert a.scheme != "" ==> IsLetter(a.scheme[0]);
    assert middle != "" && !IsSpace(middle[0]) && !IsSpace(middle[|middle| - 1]);
    TrimDecorated(a.lead, middle, a.trail);
  }

  /** Lower-casing keeps the parts of an address apart. */
  lemma {:induction false} LowerParts(a: Address)
    requires IsAddress(a)
    ensures var host, path := ToLower(a.host), ToLower(a.path);
            && (forall i :: 0 <= i < |host| ==> host[i] !in "/?#") && ':' !in host && host[|host| - 1] != '.'
            && IsPath(path) && (path == "" || (path[0] != ':' && !IsLower(path[0])))
            && forall i :: 0 <= i < |a.scheme| ==> IsLower(ToLower(a.scheme)[i])
  {
    hide IsSpace;
    LowerKeepsMarks();
    forall i | 0 <= i < |a.host| ensures ToLower(a.host)[i] !in "/?#:" {
      assert a.host[i] !in "/?#:";
    }
    forall i | 0 <= i < |a.scheme| ensures IsLower(ToLower(a.scheme)[i]) {
      assert IsLetter(a.scheme[i]);
    }
  }

  lemma {:induction false} LowerKeepsMarks()
    ensures forall c :: c in "/?#:." || IsLineTerminator(c) ==> LowerOf(c) == c
    ensures forall c :: LowerOf(c) in "/?#:." || IsLineTerminator(LowerOf(c)) ==> LowerOf(c) == c
  {
  }

  // ---------------------------------------------------------------- which hostnames are valid

  lemma {:induction false} LabelsExactly(labels: seq<string>, top: string)
    requires labels != [] && '.' !in top && forall i :: 0 <= i < |labels| ==> '.' !in labels[i]
    ensures HasLabels(Join(labels + [top], ".")) <==>
            IsTopLevel(top) && forall i :: 0 <= i < |labels| ==> IsLabel(labels[i])
    decreases |labels|
  {
    hide IsLabel, IsTopLevel, HasLabels, Join;
    var s, rest := Join(labels + [top], "."), Join(labels[1..] + [top], ".");
    assert labels + [top] == [labels[0]] + (labels[1..] + [top]);
    JoinedFirst(labels[0], labels[1..] + [top]);
    LabelsUnfold(labels[0], rest);
    if |labels| == 1 {
      assert labels[1..] + [top] == [top] && [top] + [] == [top];
      JoinedFirst(top, []);
      NoDotNoLabels(top);
    } else {
      LabelsExactly(labels[1..], top);
      assert labels[1..] + [top] == [labels[1]] + (labels[2..] + [top]);
      JoinedFirst(labels[1], labels[2..] + [top]);
      DottedIsNoTopLevel(rest, |labels[1]|);
    }
  }

  lemma {:induction false} JoinedFirst(first: string, others: seq<string>)
    ensures Join([first] + others, ".") == if others == [] then first else first + ['.'] + Join(others, ".")
  {
    assert ([first] + others)[1..] == others;
  }

  lemma {:induction false} LabelsUnfold(first: string, rest: string)
    requires '.' !in first
    ensures HasLabels(first + ['.'] + rest) <==> IsLabel(first) && (IsTopLevel(rest) || HasLabels(rest))
  {
    hide IsLabel, IsTopLevel;
    var s := first + ['.'] + rest;
    IndexAfter(first, '.', rest);
    assert s[..|first|] == first && s[|first| + 1..] == rest;
  }

  lemma {:induction false} NoDotNoLabels(s: string)
    requires '.' !in s
    ensures !HasLabels(s)
  {
  }

  lemma {:induction false} DottedIsNoTopLevel(s: string, i: nat)
    requires i < |s| && s[i] == '.'
    ensures !IsTopLevel(s)
  {
  }

  /** The valid hostnames, label by label; one without a dot is not valid. */
  lemma {:induction false} ValidExactlyWhen(labels: seq<string>, top: string)
    requires '.' !in top && forall i :: 0 <= i < |labels| ==> '.' !in labels[i]
    ensures var s := Join(labels + [top], ".");
            IsValidHostname(s) <==>
            && labels != [] && 1 <= |s| <= 253
            && 2 <= |top| <= 63 && (forall j :: 0 <= j < |top| ==> 'a' <= top[j] <= 'z')
            && (forall i :: 0 <= i < |labels| ==> 1 <= |labels[i]| <= 63)
            && (forall i, j :: 0 <= i < |labels| && 0 <= j < |labels[i]| ==>
                  var c := labels[i][j];
                  'a' <= c <= 'z' || '0' <= c <= '9' || (c == '-' && 0 < j < |labels[i]| - 1))
  {
    if labels == [] {
      assert labels + [top] == [top];
      assert IndexOfChar(top, '.') == |top|;
    } else {
      hide HasLabels, Join;
      LabelsExactly(labels, top);
    }
  }

  // ---------------------------------------------------------------- routing

  const WWW := "www."

  function Root(host: string): string {
    if WWW <= host then host[4..] else host
  }

  datatype Routing = Routing(hosts: seq<string>, canonical: string, redirectFrom: Option<string>)

  function ComputeRouting(primary: string, extras: seq<string>, redirect: Redirect): Routing {
    var base := Root(primary);
    var canonical := match redirect case NoRedirect => primary case WwwToRoot => base case RootToWww => WWW + base;
    var redirectFrom :=
      match redirect case NoRedirect => None case WwwToRoot => Some(WWW + base) case RootToWww => Some(base);
    Routing(Unique([canonical] + Filter(extras, e => Some(e) != redirectFrom)), canonical, redirectFrom)
  }

  function Answered(r: Routing): seq<string> {
    r.hosts + if r.redirectFrom.Some? then [r.redirectFrom.value] else []
  }

  lemma {:induction false} UniqueStartsAlike(xs: seq<string>)
    requires xs != []
    ensures Unique(xs) != [] && Unique(xs)[0] == xs[0]
    decreases |xs|
  {
    if |xs| > 1 {
      UniqueStartsAlike(xs[..|xs| - 1]);
    }
  }

  lemma {:induction false} WwwChanges(host: string)
    ensures WWW + host != host
  {
    assert |WWW + host| == |host| + 4;
  }

  /** The canonical host comes first, no host twice, and the redirect source is not among them. */
  lemma {:induction false} RoutingIsProper(primary: string, extras: seq<string>, redirect: Redirect)
    ensures var r := ComputeRouting(primary, extras, redirect);
            && r.hosts != [] && r.hosts[0] == r.canonical
            && Distinct(r.hosts)
            && (r.redirectFrom.Some? ==> r.redirectFrom.value !in r.hosts)
            && (forall h :: h in Answered(r) <==> h == r.canonical || Some(h) == r.redirectFrom || h in extras)
            && (redirect.NoRedirect? <==> r.redirectFrom.None?)
            && (redirect.NoRedirect? ==> r.canonical == primary)
            && (redirect.WwwToRoot? ==>
                  r.canonical == (if "www." <= primary then primary[4..] else primary)
                  && r.redirectFrom == Some("www." + r.canonical))
            && (redirect.RootToWww? ==>
                  r.redirectFrom == Some(if "www." <= primary then primary[4..] else primary)
                  && r.canonical == "www." + r.redirectFrom.value)
            && (!redirect.NoRedirect? ==> {r.canonical, r.redirectFrom.value} == {Root(primary), WWW + Root(primary)})
  {
    var r := ComputeRouting(primary, extras, redirect);
    var list := [r.canonical] + Filter(extras, e => Some(e) != r.redirectFrom);
    UniqueStartsAlike(list);
    WwwChanges(Root(primary));
    assert forall h :: h in list <==> h == r.canonical || (h in extras && Some(h) != r.redirectFrom);
  }

  lemma {:induction false} FilterKeepsOrder(xs: seq<string>, p: string -> bool, x: string, y: string)
    requires ComesBefore(Filter(xs, p), x, y) && p(y)
    ensures ComesBefore(xs, x, y)
    decreases |xs|
  {
    hide Filter;
    if xs == [] {
      FilterNone(xs, p);
      return;
    }
    var first, rest := xs[0], xs[1..];
    var kept := Filter(rest, p);
    assert xs == [first] + rest;
    FilterCons(first, rest, p);
    if p(first) && first == x && x != y {
      assert xs[..0 + 1] == [first];
      assert xs[0] == x && y !in xs[..0 + 1];
    } else {
      if p(first) {
        LaterComesBefore(first, kept, x, y);
      } else {
        assert [] + kept == kept;
      }
      FilterKeepsOrder(rest, p, x, y);
      FirstComesBefore(first, rest, x, y);
    }
  }

  lemma {:induction false} LaterComesBefore(first: string, rest: seq<string>, x: string, y: string)
    requires ComesBefore([first] + rest, x, y) && first != x
    ensures ComesBefore(rest, x, y) && first != y
  {
    var all := [first] + rest;
    var a :| 0 <= a < |all| && all[a] == x && y !in all[..a + 1];
    assert all[..a + 1] == [first] + rest[..a];
    assert rest[a - 1] == x && y !in rest[..a - 1 + 1];
  }

  lemma {:induction false} FirstComesBefore(first: string, rest: seq<string>, x: string, y: string)
    requires ComesBefore(rest, x, y) && first != y
    ensures ComesBefore([first] + rest, x, y)
  {
    var all := [first] + rest;
    var b :| 0 <= b < |rest| && rest[b] == x && y !in rest[..b + 1];
    assert all[..b + 1 + 1] == [first] + rest[..b + 1];
    assert all[b + 1] == x && y !in all[..b + 1 + 1];
  }

  /** The additional hosts keep the order in which they are listed. */
  lemma {:induction false} HostsKeepOrder(primary: string, extras: seq<string>, redirect: Redirect, i: nat, j: nat)
    ensures var hosts := ComputeRouting(primary, extras, redirect).hosts;
            1 <= i < j < |hosts| ==> ComesBefore(extras, hosts[i], hosts[j])
  {
    hide Filter, Unique, Root;
    var r := ComputeRouting(primary, extras, redirect);
    var p := e => Some(e) != r.redirectFrom;
    var kept := Filter(extras, p);
    var list := [r.canonical] + kept;
    if 1 <= i < j < |r.hosts| {
      RoutingIsProper(primary, extras, redirect);
      var x, y := r.hosts[i], r.hosts[j];
      assert x != r.hosts[0] && y != r.hosts[0];
      assert r.hosts == Unique(list);
      UniqueKeepsOrder(list, i, j);
      var a :| 0 <= a < |list| && list[a] == x && y !in list[..a + 1];
      assert list[..a + 1] == [r.canonical] + kept[..a];
      assert kept[a - 1] == x && y !in kept[..a - 1 + 1];
      assert y in r.hosts && y in list && y in kept;
      FilterKeepsOrder(extras, p, x, y);
    }
  }

  // ---------------------------------------------------------------- rows

  /** `domain` is empty where the database holds null. */
  datatype App = App(id: string, name: string, domain: string, extraDomains: seq<string>, redirect: Redirect)

  datatype Request = Request(domain: Option<string>, extraDomains: Option<seq<string>>, redirect: Option<Redirect>)

  datatype DomainError =
    | NotFound
    | TooManyDomains
    | InvalidDomain(host: string)
    | RedirectNeedsDomain
    | DomainTaken(host: string, usedBy: string)

  const MAX_EXTRA_DOMAINS := 10

  /** The hostnames an application answers on or redirects from, as the handler lists them. */
  function Theirs(a: App): seq<string> {
    if a.domain == "" then a.extraDomains
    else Answered(ComputeRouting(NormalizeHost(a.domain), a.extraDomains, a.redirect))
  }

  ghost function Effective(a: App): set<string> {
    set h | h in Theirs(a) && h != ""
  }

  /** The hostnames a request claims, as the handler collects them. */
  function Mine(domain: string, extras: seq<string>, redirect: Redirect): set<string> {
    (set h | h in [domain] + extras && h != "")
    + if redirect.NoRedirect? then {} else {WWW + Root(domain), Root(domain)}
  }

  ghost predicate WellFormed(a: App) {
    && (a.domain == "" ==> a.redirect.NoRedirect?)
    && (a.domain != "" ==> IsValidHostname(a.domain))
    && forall h :: h in a.extraDomains ==> IsValidHostname(h)
  }

  lemma {:induction false} RootOfValid(host: string)
    requires IsValidHostname(host)
    ensures Root(host) != "" && (host == Root(host) || host == WWW + Root(host))
  {
    hide HasLabels;
    HostChars(host);
    if WWW <= host {
      assert host == WWW + host[4..];
      assert host[3] == '.';
    }
  }

  /** What the handler claims is exactly what the row will answer on. */
  lemma {:induction false} MineIsEffective(a: App)
    requires WellFormed(a)
    ensures Mine(a.domain, a.extraDomains, a.redirect) == Effective(a)
  {
    hide IsValidHostname, ComputeRouting, NormalizeHost, Root;
    if a.domain == "" {
      assert forall h :: h in [a.domain] + a.extraDomains <==> h == a.domain || h in a.extraDomains;
    } else {
      ValidIsNormal(a.domain);
      RoutingIsProper(a.domain, a.extraDomains, a.redirect);
      RootOfValid(a.domain);
      var r := ComputeRouting(a.domain, a.extraDomains, a.redirect);
      assert forall h :: h in Theirs(a) <==> h == r.canonical || Some(h) == r.redirectFrom || h in a.extraDomains;
      assert forall h :: h in [a.domain] + a.extraDomains <==> h == a.domain || h in a.extraDomains;
      if !a.redirect.NoRedirect? {
        PairOf(r.canonical, r.redirectFrom.value, Root(a.domain), WWW + Root(a.domain));
      }
    }
  }

  lemma {:induction false} PairOf(a: string, b: string, c: string, d: string)
    requires {a, b} == {c, d}
    ensures (a == c && b == d) || (a == d && b == c)
  {
    assert a in {c, d} && b in {c, d} && c in {a, b} && d in {a, b};
  }

  // ---------------------------------------------------------------- the handler

  function Normalized(hosts: seq<string>): (r: seq<string>)
    ensures |r| == |hosts| && forall i :: 0 <= i < |r| ==> r[i] == NormalizeHost(hosts[i])
  {
    seq(|hosts|, i requires 0 <= i < |hosts| => NormalizeHost(hosts[i]))
  }

  /** The row a request asks for. */
  function Requested(current: App, req: Request): App {
    var domain := if req.domain.Some? && req.domain.value != "" then NormalizeHost(req.domain.value) else "";
    var listed := if req.extraDomains.Some? then req.extraDomains.value else [];
    var extras := Filter(Unique(Filter(Normalized(listed), h => h != "")), h => h != domain);
    current.(domain := domain, extraDomains := extras,
             redirect := if req.redirect.Some? then req.redirect.value else current.redirect)
  }

  lemma {:induction false} FilterKeepsDistinct(xs: seq<string>, p: string -> bool)
    requires Distinct(xs)
    ensures Distinct(Filter(xs, p))
    decreases |xs|
  {
    if xs != [] {
      FilterKeepsDistinct(xs[1..], p);
      assert forall x :: x in Filter(xs[1..], p) ==> x in xs[1..];
      assert forall i :: 0 <= i < |xs[1..]| ==> xs[1..][i] != xs[0];
    }
  }

  lemma {:induction false} BlankIsNormal()
    ensures NormalizeHost("") == ""
  {
  }

  /**
   * The row a request asks for keeps its identity, has its hosts normalized, and lists each additional host
   * once, without blanks and without the main domain.
   */
  lemma {:induction false} RequestIsNormalized(current: App, req: Request)
    ensures var a := Requested(current, req);
            && a.id == current.id && a.name == current.name
            && a.domain == (if req.domain.Some? then NormalizeHost(req.domain.value) else "")
            && a.redirect == (if req.redirect.Some? then req.redirect.value else current.redirect)
            && Distinct([a.domain] + a.extraDomains) && "" !in a.extraDomains
    ensures forall h :: h in Requested(current, req).extraDomains <==>
              h != "" && h != Requested(current, req).domain && req.extraDomains.Some?
              && h in Normalized(req.extraDomains.value)
  {
    hide NormalizeHost, Filter, Unique;
    BlankIsNormal();
    var a := Requested(current, req);
    var listed := if req.extraDomains.Some? then req.extraDomains.value else [];
    FilterKeepsDistinct(Unique(Filter(Normalized(listed), h => h != "")), h => h != a.domain);
    assert forall i :: 0 <= i < |a.extraDomains| ==> a.extraDomains[i] in a.extraDomains;
  }

  /** And it keeps the order in which they were given. */
  lemma {:induction false} RequestKeepsOrder(current: App, req: Request, i: nat, j: nat)
    ensures var extras := Requested(current, req).extraDomains;
            i < j < |extras| ==>
              && req.extraDomains.Some?
              && ComesBefore(Normalized(req.extraDomains.value), extras[i], extras[j])
  {
    hide NormalizeHost, Filter, Unique;
    var a := Requested(current, req);
    var listed := if req.extraDomains.Some? then req.extraDomains.value else [];
    var given, nonBlank, other := Normalized(listed), (h: string) => h != "", (h: string) => h != a.domain;
    var kept := Filter(given, nonBlank);
    var unique := Unique(kept);
    assert a.extraDomains == Filter(unique, other);
    if i < j < |a.extraDomains| {
      var x, y := a.extraDomains[i], a.extraDomains[j];
      hide ComesBefore, Requested, Normalized;
      RequestIsNormalized(current, req);
      TailIsDistinct(a.domain, a.extraDomains);
      DistinctComesBefore(a.extraDomains, i, j);
      assert y in a.extraDomains && y in unique && y in kept;
      FilterKeepsOrder(unique, other, x, y);
      UniqueComesBefore(kept, x, y);
      FilterKeepsOrder(given, nonBlank, x, y);
    }
  }

  lemma {:induction false} TailIsDistinct(first: string, xs: seq<string>)
    requires Distinct([first] + xs)
    ensures Distinct(xs) && first !in xs
  {
    var all := [first] + xs;
    assert all[0] == first;
    forall i | 0 <= i < |xs| ensures all[i + 1] == xs[i] && xs[i] != first {
    }
  }

  lemma {:induction false} DistinctComesBefore(xs: seq<string>, i: nat, j: nat)
    requires Distinct(xs) && i < j < |xs|
    ensures ComesBefore(xs, xs[i], xs[j])
  {
    assert xs[i] == xs[i] && xs[j] !in xs[..i + 1];
  }

  lemma {:induction false} UniqueComesBefore(xs: seq<string>, x: string, y: string)
    requires ComesBefore(Unique(xs), x, y) && y in Unique(xs)
    ensures ComesBefore(xs, x, y)
  {
    hide Unique;
    ComesBeforeAt(Unique(xs), x, y);
    var i, j :| 0 <= i < j < |Unique(xs)| && Unique(xs)[i] == x && Unique(xs)[j] == y;
    UniqueKeepsOrder(xs, i, j);
  }

  lemma {:induction false} ComesBeforeAt(xs: seq<string>, x: string, y: string)
    requires ComesBefore(xs, x, y) && y in xs
    ensures exists i, j :: 0 <= i < j < |xs| && xs[i] == x && xs[j] == y
  {
    var i :| 0 <= i < |xs| && xs[i] == x && y !in xs[..i + 1];
    var j :| 0 <= j < |xs| && xs[j] == y;
    assert forall k :: 0 <= k <= i ==> xs[..i + 1][k] == xs[k];
  }

  /** The first invalid hostname of a list, blanks aside. */
  function FirstInvalid(hosts: seq<string>): (r: Option<string>)
    ensures r.None? <==> forall h :: h in hosts ==> h == "" || IsValidHostname(h)
  {
    if hosts == [] then None
    else if hosts[0] != "" && !IsValidHostname(hosts[0]) then Some(hosts[0])
    else
      assert forall h :: h in hosts <==> h == hosts[0] || h in hosts[1..];
      FirstInvalid(hosts[1..])
  }

  /** The first of these hosts that is claimed. */
  function FirstClaimed(hosts: seq<string>, mine: set<string>): (r: Option<string>)
    ensures r.None? <==> forall h :: h in hosts && h != "" ==> h !in mine
    ensures r.Some? ==> r.value in hosts && r.value != "" && r.value in mine
  {
    if hosts == [] then None
    else if hosts[0] != "" && hosts[0] in mine then Some(hosts[0])
    else
      assert forall h :: h in hosts <==> h == hosts[0] || h in hosts[1..];
      FirstClaimed(hosts[1..], mine)
  }

  /** The error of the first row other than `id` that answers a claimed host. */
  function FirstClash(rows: seq<App>, id: string, mine: set<string>): Option<DomainError> {
    if rows == [] then None
    else
      var clash := if rows[0].id == id then None else FirstClaimed(Theirs(rows[0]), mine);
      if clash.Some? then Some(DomainTaken(clash.value, rows[0].name)) else FirstClash(rows[1..], id, mine)
  }

  lemma {:induction false} FirstClashUnfold(rows: seq<App>, k: nat, id: string, mine: set<string>)
    requires k <= |rows|
    ensures k == |rows| ==> FirstClash(rows[k..], id, mine) == None
    ensures k < |rows| ==>
              var clash := if rows[k].id == id then None else FirstClaimed(Theirs(rows[k]), mine);
              FirstClash(rows[k..], id, mine)
              == if clash.Some? then Some(DomainTaken(clash.value, rows[k].name))
                 else FirstClash(rows[k + 1..], id, mine)
  {
    hide Theirs, FirstClaimed;
    if k < |rows| {
      assert rows[k..][0] == rows[k] && rows[k..][1..] == rows[k + 1..];
    }
  }

  function Find(rows: seq<App>, id: string): (r: Option<nat>)
    ensures r.Some? ==> r.value < |rows| && rows[r.value].id == id
    ensures r.None? ==> forall i :: 0 <= i < |rows| ==> rows[i].id != id
  {
    if rows == [] then None
    else if rows[0].id == id then Some(0)
    else
      var rest := Find(rows[1..], id);
      if rest.Some? then Some(rest.value + 1) else None
  }

  /** The handler's answer: the row to store, or the error. */
  function Decide(rows: seq<App>, id: string, req: Request): Result<App, DomainError> {
    var at := Find(rows, id);
    if at.None? then Err(NotFound)
    else
      var a := Requested(rows[at.value], req);
      if |a.extraDomains| > MAX_EXTRA_DOMAINS then Err(TooManyDomains)
      else
        var invalid := FirstInvalid([a.domain] + a.extraDomains);
        if invalid.Some? then Err(InvalidDomain(invalid.value))
        else if !a.redirect.NoRedirect? && a.domain == "" then Err(RedirectNeedsDomain)
        else
          var clash := FirstClash(rows, id, Mine(a.domain, a.extraDomains, a.redirect));
          if clash.Some? then Err(clash.value) else Ok(a)
  }

  function Stored(rows: seq<App>, id: string, req: Request): seq<App> {
    var at, answer := Find(rows, id), Decide(rows, id, req);
    if at.Some? && answer.Ok? then rows[at.value := answer.value] else rows
  }

  class Applications {
    var rows: seq<App>

    constructor ()
      ensures rows == []
    {
      rows := [];
    }

    method UpdateDomain(id: string, req: Request) returns (r: Result<App, DomainError>)
      modifies this
      ensures r == Decide(old(rows), id, req)
      ensures rows == Stored(old(rows), id, req)
    {
      hide Requested, FirstInvalid, FirstClaimed, FirstClash, Theirs, Find, Root;
      var at := Find(rows, id);
      if at.None? { return Err(NotFound); }
      var a := Requested(rows[at.value], req);
      if |a.extraDomains| > MAX_EXTRA_DOMAINS { return Err(TooManyDomains); }
      var invalid := FirstInvalid([a.domain] + a.extraDomains);
      if invalid.Some? { return Err(InvalidDomain(invalid.value)); }
      if !a.redirect.NoRedirect? && a.domain == "" { return Err(RedirectNeedsDomain); }
      var mine := set h | h in [a.domain] + a.extraDomains && h != "";
      if !a.redirect.NoRedirect? {
        mine := mine + {WWW + Root(a.domain)};
        mine := mine + {Root(a.domain)};
      }
      assert mine == Mine(a.domain, a.extraDomains, a.redirect);
      assert rows[0..] == rows;
      for i := 0 to |rows|
        invariant rows == old(rows)
        invariant FirstClash(rows, id, mine) == FirstClash(rows[i..], id, mine)
      {
        var other := rows[i];
        FirstClashUnfold(rows, i, id, mine);
        if other.id == id { continue; }
        var clash := FirstClaimed(Theirs(other), mine);
        if clash.Some? { return Err(DomainTaken(clash.value, other.name)); }
      }
      FirstClashUnfold(rows, |rows|, id, mine);
      rows := rows[at.value := a];
      r := Ok(a);
    }

    /** A new application has no hostnames yet. */
    method Create(id: string, name: string)
      requires forall i :: 0 <= i < |rows| ==> rows[i].id != id
      modifies this
      ensures rows == Inserted(old(rows), id, name)
    {
      rows := rows + [App(id, name, "", [], NoRedirect)];
    }

    /** A copy gives up the hostnames of its original. */
    method Clone(source: string, id: string, name: string) returns (done: bool)
      requires forall i :: 0 <= i < |rows| ==> rows[i].id != id
      modifies this
      ensures done == Find(old(rows), source).Some?
      ensures rows == if done then Inserted(old(rows), id, name) else old(rows)
    {
      var at := Find(rows, source);
      if at.None? { return false; }
      var copy := rows[at.value].(id := id, name := name, domain := "", extraDomains := [], redirect := NoRedirect);
      rows := rows + [copy];
      done := true;
    }
  }

  function Inserted(rows: seq<App>, id: string, name: string): seq<App> {
    rows + [App(id, name, "", [], NoRedirect)]
  }

  // ---------------------------------------------------------------- disjointness in every reachable state

  ghost predicate Consistent(rows: seq<App>) {
    && (forall i, j :: 0 <= i < j < |rows| ==> rows[i].id != rows[j].id)
    && (forall i :: 0 <= i < |rows| ==> WellFormed(rows[i]))
  }

  ghost predicate Disjoint(rows: seq<App>) {
    forall i, j :: 0 <= i < j < |rows| ==> Effective(rows[i]) !! Effective(rows[j])
  }

  lemma {:induction false} RequestedIsWellFormed(current: App, req: Request)
    requires var a := Requested(current, req);
             && FirstInvalid([a.domain] + a.extraDomains).None? && (a.redirect.NoRedirect? || a.domain != "")
    ensures WellFormed(Requested(current, req)) && Requested(current, req).id == current.id
  {
    hide IsValidHostname, NormalizeHost;
    var a := Requested(current, req);
    assert a.domain in [a.domain] + a.extraDomains;
    forall h | h in a.extraDomains ensures IsValidHostname(h) {
      assert h in [a.domain] + a.extraDomains;
      assert h != "";
    }
  }

  lemma {:induction false} ClashMeansOverlap(rows: seq<App>, id: string, mine: set<string>)
    ensures FirstClash(rows, id, mine).None? <==>
            forall i :: 0 <= i < |rows| && rows[i].id != id ==> Effective(rows[i]) !! mine
    ensures FirstClash(rows, id, mine).Some? ==>
              FirstClash(rows, id, mine).value.DomainTaken?
              && exists i :: 0 <= i < |rows| && rows[i].id != id
                             && rows[i].name == FirstClash(rows, id, mine).value.usedBy
                             && FirstClash(rows, id, mine).value.host in Effective(rows[i]) * mine
    decreases |rows|
  {
    hide Theirs;
    if rows != [] {
      ClashMeansOverlap(rows[1..], id, mine);
      var clash := FirstClaimed(Theirs(rows[0]), mine);
      assert clash.None? <==> Effective(rows[0]) !! mine;
      assert clash.Some? ==> clash.value in Effective(rows[0]) * mine;
      assert forall i :: 0 <= i < |rows[1..]| ==> rows[1..][i] == rows[i + 1];
      assert forall i :: 1 <= i < |rows| ==> rows[i] == rows[1..][i - 1];
    }
  }

  /** What the handler checks before it looks at other applications. */
  predicate IsAcceptable(a: App) {
    && |a.extraDomains| <= MAX_EXTRA_DOMAINS
    && (forall h :: h in [a.domain] + a.extraDomains ==> h == "" || IsValidHostname(h))
    && (a.redirect.NoRedirect? || a.domain != "")
  }

  /**
   * An update of an existing application succeeds exactly if the requested row is acceptable and no other
   * application answers on, or redirects from, one of its hostnames; a taken hostname is then named.
   */
  lemma {:induction false} AcceptedExactlyWhenFree(rows: seq<App>, id: string, req: Request)
    requires Consistent(rows)
    ensures var at, answer := Find(rows, id), Decide(rows, id, req);
            && (at.None? <==> answer == Err(NotFound))
            && (at.Some? ==>
                  var a := Requested(rows[at.value], req);
                  && (answer.Ok? <==> IsAcceptable(a)
                                      && forall i :: 0 <= i < |rows| && rows[i].id != id ==>
                                           Effective(rows[i]) !! Effective(a))
                  && (answer.Ok? ==> answer.value == a)
                  && (answer.Err? && IsAcceptable(a) ==>
                        answer.error.DomainTaken? && answer.error.host in Effective(a)))
  {
    hide IsValidHostname, NormalizeHost, Theirs, Requested, Effective, Mine, FirstClash;
    var at := Find(rows, id);
    if at.Some? {
      var a := Requested(rows[at.value], req);
      if IsAcceptable(a) {
        RequestedIsWellFormed(rows[at.value], req);
        MineIsEffective(a);
        ClashMeansOverlap(rows, id, Effective(a));
      }
    }
  }

  /** Which error is answered, in the order of the checks. */
  lemma {:induction false} ErrorsInOrder(rows: seq<App>, id: string, req: Request)
    requires Find(rows, id).Some?
    ensures var a, answer := Requested(rows[Find(rows, id).value], req), Decide(rows, id, req);
            var hosts := [a.domain] + a.extraDomains;
            if |a.extraDomains| > 10 then answer == Err(TooManyDomains)
            else if exists h :: h in hosts && h != "" && !IsValidHostname(h) then
              exists i :: && 0 <= i < |hosts| && hosts[i] != "" && !IsValidHostname(hosts[i])
                          && answer == Err(InvalidDomain(hosts[i]))
                          && forall j :: 0 <= j < i ==> hosts[j] == "" || IsValidHostname(hosts[j])
            else if !a.redirect.NoRedirect? && a.domain == "" then answer == Err(RedirectNeedsDomain)
            else answer == Ok(a) || (answer.Err? && answer.error.DomainTaken?)
  {
    hide IsValidHostname, Requested, Theirs, Mine;
    var a := Requested(rows[Find(rows, id).value], req);
    FirstInvalidIsFirst([a.domain] + a.extraDomains);
    ClashMeansOverlap(rows, id, Mine(a.domain, a.extraDomains, a.redirect));
  }

  lemma {:induction false} FirstInvalidIsFirst(hosts: seq<string>)
    ensures var r := FirstInvalid(hosts);
            r.Some? ==>
              exists i ::
                && 0 <= i < |hosts| && hosts[i] == r.value && r.value != "" && !IsValidHostname(r.value)
                && forall j :: 0 <= j < i ==> hosts[j] == "" || IsValidHostname(hosts[j])
    decreases |hosts|
  {
    hide IsValidHostname;
    if hosts != [] {
      FirstInvalidIsFirst(hosts[1..]);
      var r := FirstInvalid(hosts);
      if r.Some? {
        if hosts[0] != "" && !IsValidHostname(hosts[0]) {
          assert hosts[0] == r.value;
        } else {
          var i :| && 0 <= i < |hosts| - 1 && hosts[1..][i] == r.value && r.value != "" && !IsValidHostname(r.value)
                   && forall j :: 0 <= j < i ==> hosts[1..][j] == "" || IsValidHostname(hosts[1..][j]);
          assert hosts[i + 1] == r.value;
          forall j | 0 <= j < i + 1 ensures hosts[j] == "" || IsValidHostname(hosts[j]) {
            assert j > 0 ==> hosts[j] == hosts[1..][j - 1];
          }
        }
      }
    }
  }

  /**
   * A successful update stores the answered row for its application and leaves all others; a failed one
   * changes nothing.
   */
  lemma {:induction false} OnlyOneRowChanges(rows: seq<App>, id: string, req: Request, k: nat)
    requires Consistent(rows) && k < |rows|
    ensures var stored, answer := Stored(rows, id, req), Decide(rows, id, req);
            && |stored| == |rows|
            && stored[k] == (if rows[k].id == id && answer.Ok? then answer.value else rows[k])
            && (answer.Ok? ==> answer.value.id == id)
  {
    hide IsValidHostname, NormalizeHost, Theirs, Mine, FirstClash, FirstInvalid, WellFormed;
    var at := Find(rows, id);
    if at.Some? {
      RequestIsNormalized(rows[at.value], req);
    }
    hide Requested;
    assert at.Some? && k != at.value ==> rows[k].id != id;
  }

  lemma {:induction false} UpdateKeeps(rows: seq<App>, id: string, req: Request)
    requires Consistent(rows) && Disjoint(rows)
    ensures Consistent(Stored(rows, id, req)) && Disjoint(Stored(rows, id, req))
  {
    hide IsValidHostname, NormalizeHost, Theirs, Requested, Effective, Mine, WellFormed;
    var at, answer := Find(rows, id), Decide(rows, id, req);
    if at.Some? && answer.Ok? {
      RequestedIsWellFormed(rows[at.value], req);
      AcceptedExactlyWhenFree(rows, id, req);
      var rows' := rows[at.value := answer.value];
      forall i, j | 0 <= i < j < |rows'| ensures Effective(rows'[i]) !! Effective(rows'[j]) {
        if i == at.value {
          assert rows[j].id != id;
        } else if j == at.value {
          assert rows[i].id != id;
        }
      }
    }
  }

  lemma {:induction false} InsertKeeps(rows: seq<App>, id: string, name: string)
    requires Consistent(rows) && Disjoint(rows) && forall i :: 0 <= i < |rows| ==> rows[i].id != id
    ensures Consistent(Inserted(rows, id, name)) && Disjoint(Inserted(rows, id, name))
    ensures var all := Inserted(rows, id, name);
            && |all| == |rows| + 1 && all[..|rows|] == rows
            && all[|rows|].id == id && all[|rows|].name == name && Effective(all[|rows|]) == {}
  {
    hide IsValidHostname;
    assert Effective(App(id, name, "", [], NoRedirect)) == {};
  }

  datatype Operation = Insert(id: string, name: string) | Update(id: string, req: Request) | Delete(id: string)

  function Without(rows: seq<App>, id: string): seq<App> {
    var at := Find(rows, id);
    if at.Some? then rows[..at.value] + rows[at.value + 1..] else rows
  }

  lemma {:induction false} DeleteKeeps(rows: seq<App>, id: string)
    requires Consistent(rows) && Disjoint(rows)
    ensures Consistent(Without(rows, id)) && Disjoint(Without(rows, id))
  {
    hide Effective, WellFormed;
    var at, rest := Find(rows, id), Without(rows, id);
    if at.Some? {
      var k := at.value;
      assert forall i :: 0 <= i < |rest| ==> rest[i] == rows[if i < k then i else i + 1];
    }
  }

  function Performed(rows: seq<App>, op: Operation): seq<App> {
    match op
    case Insert(id, name) => if Find(rows, id).Some? then rows else Inserted(rows, id, name)
    case Update(id, req) => Stored(rows, id, req)
    case Delete(id) => Without(rows, id)
  }

  /** The rows of a team after a run of creations, copies, domain changes and deletions. */
  function After(ops: seq<Operation>): seq<App>
    decreases |ops|
  {
    if ops == [] then [] else Performed(After(ops[..|ops| - 1]), ops[|ops| - 1])
  }

  lemma {:induction false} OperationKeeps(rows: seq<App>, op: Operation)
    requires Consistent(rows) && Disjoint(rows)
    ensures Consistent(Performed(rows, op)) && Disjoint(Performed(rows, op))
  {
    hide Consistent, Disjoint, Stored, Inserted, Without;
    match op
    case Insert(id, name) => if Find(rows, id).None? { InsertKeeps(rows, id, name); }
    case Update(id, req) => UpdateKeeps(rows, id, req);
    case Delete(id) => DeleteKeeps(rows, id);
  }

  /** In every reachable state no two applications of a team share an effective hostname. */
  lemma {:induction false} HostnamesStayDisjoint(ops: seq<Operation>)
    ensures Consistent(After(ops)) && Disjoint(After(ops))
    decreases |ops|
  {
    hide Performed;
    if ops != [] {
      HostnamesStayDisjoint(ops[..|ops| - 1]);
      OperationKeeps(After(ops[..|ops| - 1]), ops[|ops| - 1]);
    }
  }
}
