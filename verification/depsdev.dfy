/** The package-health client: what a purl asks about, and a cache that batches what it must fetch. */
module DepsDev {
  import opened Common
  import opened Text

  /** One package version, as the service names it. */
  datatype Key = Key(system: string, name: string, version: string)

  // ---- purls ----

  function SystemOf(kind: string): Option<string> {
    if kind == "npm" then Some("NPM")
    else if kind == "pypi" then Some("PYPI")
    else if kind == "golang" then Some("GO")
    else if kind == "cargo" then Some("CARGO")
    else if kind == "maven" then Some("MAVEN")
    else if kind == "nuget" then Some("NUGET")
    else if kind == "gem" then Some("RUBYGEMS")
    else None
  }

  /** The index of the first character of a set, or the length. */
  function First(s: string, stops: set<char>): (i: nat)
    ensures i <= |s| && (i < |s| ==> s[i] in stops) && forall j :: 0 <= j < i ==> s[j] !in stops
  {
    if s == "" || s[0] in stops then 0 else 1 + First(s[1..], stops)
  }

  function LastIndex(s: string, c: char): (i: int)
    ensures -1 <= i < |s| && (i >= 0 ==> s[i] == c) && forall j :: i < j < |s| ==> s[j] != c
  {
    if s == "" then -1 else if s[|s| - 1] == c then |s| - 1 else LastIndex(s[..|s| - 1], c)
  }

  function Hex(c: char): (n: Option<nat>)
    ensures n.Some? ==> n.value < 16
  {
    if '0' <= c <= '9' then Some((c - '0') as nat)
    else if 'a' <= c <= 'f' then Some((c - 'a') as nat + 10)
    else if 'A' <= c <= 'F' then Some((c - 'A') as nat + 10)
    else None
  }

  /** `url.PathUnescape`. */
  function Unescape(s: string): Option<string> {
    if s == "" then Some("")
    else if s[0] != '%' then
      match Unescape(s[1..])
      case Some(rest) => Some([s[0]] + rest)
      case None => None
    else if |s| < 3 then None
    else match (Hex(s[1]), Hex(s[2]), Unescape(s[3..]))
      case (Some(h), Some(l), Some(rest)) => Some([(16 * h + l) as char] + rest)
      case _ => None
  }

  /** A Maven purl carries the group as a namespace; the service joins group and artifact by a colon. */
  function Joined(name: string): string {
    var i := First(name, {'/'});
    if i == |name| then name else name[..i] + ":" + name[i + 1..]
  }

  /** The part of a purl that names a package, past `pkg:` and before any qualifier or subpath. */
  function Naming(purl: string): Option<string> {
    var t := TrimSpace(purl);
    if "pkg:" <= t then Some(t[4..][..First(t[4..], {'?', '#'})]) else None
  }

  function KeyOf(rest: string): Option<Key> {
    var slash := First(rest, {'/'});
    if slash == |rest| then None
    else
      var path := rest[slash + 1..];
      var at := LastIndex(path, '@');
      match SystemOf(ToLower(rest[..slash]))
      case None => None
      case Some(system) =>
        if at <= 0 || path[at + 1..] == "" then None
        else match Unescape(path[..at])
          case None => None
          case Some(name) =>
            var version := path[at + 1..];
            Some(Key(system, if system == "MAVEN" then Joined(name) else name,
                     match Unescape(version) case Some(v) => v case None => version))
  }

  function Parse(purl: string): Option<Key> {
    match Naming(purl)
    case None => None
    case Some(rest) => KeyOf(rest)
  }

  // ---- reading undoes writing ----

  /** A byte as a hexadecimal digit. */
  function Digit(n: nat, upper: bool): char
    requires n < 16
  {
    if n < 10 then '0' + n as char else if upper then 'A' + (n - 10) as char else 'a' + (n - 10) as char
  }

  predicate Bytes(s: string) { forall i :: 0 <= i < |s| ==> s[i] as nat < 256 }

  /** Percent-encoding (section 2.1 of RFC 3986): two hexadecimal digits for each byte not left plain. */
  function Escape(s: string, plain: char -> bool, upper: bool): string
    requires Bytes(s)
  {
    if s == "" then ""
    else (if plain(s[0]) then [s[0]] else ['%', Digit(s[0] as nat / 16, upper), Digit(s[0] as nat % 16, upper)]) +
         Escape(s[1..], plain, upper)
  }

  predicate IsHexDigit(c: char) { '0' <= c <= '9' || 'A' <= c <= 'F' || 'a' <= c <= 'f' }

  lemma {:induction false} HexOfDigit(n: nat, upper: bool)
    requires n < 16
    ensures Hex(Digit(n, upper)) == Some(n) && IsHexDigit(Digit(n, upper))
  {
  }

  /** A percent sign that two hexadecimal digits do not follow. */
  predicate Malformed(s: string, i: nat) {
    i < |s| && s[i] == '%' && !(i + 2 < |s| && IsHexDigit(s[i + 1]) && IsHexDigit(s[i + 2]))
  }

  /** What does not unescape is exactly what holds such a percent sign. */
  lemma {:induction false} MalformedExactly(s: string)
    ensures Unescape(s).None? <==> exists i :: Malformed(s, i)
  {
    if s != "" {
      var k := if s[0] == '%' then 3 else 1;
      if s[0] == '%' && Malformed(s, 0) {
      } else {
        MalformedExactly(s[k..]);
        forall i: nat ensures Malformed(s[k..], i) <==> Malformed(s, i + k) {
        }
        forall i: nat | Malformed(s, i) ensures i >= k && Malformed(s[k..], i - k) {
        }
      }
    }
  }

  lemma {:induction false} UnescapePlain(c: char, rest: string)
    requires c != '%' && Unescape(rest).Some?
    ensures Unescape([c] + rest) == Some([c] + Unescape(rest).value)
  {
    assert ([c] + rest)[1..] == rest;
  }

  lemma {:induction false} UnescapeHex(h: char, l: char, rest: string)
    requires Unescape(rest).Some? && Hex(h).Some? && Hex(l).Some?
    ensures Unescape(['%', h, l] + rest) ==
            Some([(16 * Hex(h).value + Hex(l).value) as char] + Unescape(rest).value)
  {
    hide Hex;
    var e := ['%', h, l] + rest;
    assert e[0] == '%' && e[1] == h && e[2] == l && e[3..] == rest;
  }

  lemma {:induction false} UnescapeByte(c: char, upper: bool, rest: string)
    requires c as nat < 256 && Unescape(rest).Some?
    ensures Unescape(['%', Digit(c as nat / 16, upper), Digit(c as nat % 16, upper)] + rest) ==
            Some([c] + Unescape(rest).value)
  {
    var n := c as nat;
    assert 16 * (n / 16) + n % 16 == n;
    HexOfDigit(n / 16, upper);
    HexOfDigit(n % 16, upper);
    hide Digit, Hex, Unescape;
    UnescapeHex(Digit(n / 16, upper), Digit(n % 16, upper), rest);
  }

  /** Unescaping undoes percent-encoding, whichever bytes but the percent sign are left plain and whichever
      case the digits are in. */
  lemma {:induction false} UnescapeUndoesEscape(s: string, plain: char -> bool, upper: bool)
    requires !plain('%') && Bytes(s)
    ensures Unescape(Escape(s, plain, upper)) == Some(s)
  {
    if s != "" {
      UnescapeUndoesEscape(s[1..], plain, upper);
      hide Digit, Hex, Unescape;
      var rest := Escape(s[1..], plain, upper);
      if plain(s[0]) {
        UnescapePlain(s[0], rest);
      } else {
        UnescapeByte(s[0], upper, rest);
      }
      assert [s[0]] + s[1..] == s;
    }
  }

  lemma {:induction false} EscapeHolds(s: string, plain: char -> bool, upper: bool)
    requires Bytes(s)
    ensures s != "" ==> Escape(s, plain, upper) != ""
    ensures forall c :: c in Escape(s, plain, upper) ==> c == '%' || IsHexDigit(c) || plain(c)
  {
    if s != "" {
      EscapeHolds(s[1..], plain, upper);
      HexOfDigit(s[0] as nat / 16, upper);
      HexOfDigit(s[0] as nat % 16, upper);
    }
  }

  lemma {:induction false} FirstAt(a: string, c: char, b: string, stops: set<char>)
    requires c in stops && forall x :: x in a ==> x !in stops
    ensures First(a + [c] + b, stops) == |a|
  {
    var s := a + [c] + b;
    assert s[|a|] == c && forall i :: 0 <= i < |a| ==> s[i] == a[i];
  }

  lemma {:induction false} LastIndexAt(a: string, c: char, b: string)
    requires c !in b
    ensures LastIndex(a + [c] + b, c) == |a|
  {
    var s := a + [c] + b;
    assert s[|a|] == c && forall i :: |a| < i < |s| ==> s[i] == b[i - |a| - 1];
  }

  lemma {:induction false} Regrouped(a: string, b: string, c: string)
    ensures a + ['/'] + (b + ['@'] + c) == a + "/" + b + "@" + c
    ensures b + "@" + c == b + ['@'] + c
  {
  }

  lemma {:induction false} SpelledParts(kind: string, n: string, v: string)
    requires '/' !in kind && '@' !in v
    ensures var rest := kind + "/" + n + "@" + v; var path := n + "@" + v;
            && First(rest, {'/'}) == |kind| && rest[..|kind|] == kind && rest[|kind| + 1..] == path
            && LastIndex(path, '@') == |n| && path[..|n|] == n && path[|n| + 1..] == v
  {
    hide First, LastIndex;
    Regrouped(kind, n, v);
    FirstAt(kind, '/', n + "@" + v, {'/'});
    LastIndexAt(n, '@', v);
  }

  /** How the part that names a package is read: a type up to the first slash, a version past the last `@`. */
  lemma {:induction false} KeyOfSpelled(kind: string, n: string, v: string)
    requires '/' !in kind && n != "" && v != "" && '@' !in v
    ensures KeyOf(kind + "/" + n + "@" + v) ==
            match (SystemOf(ToLower(kind)), Unescape(n))
            case (Some(system), Some(name)) =>
              Some(Key(system, if system == "MAVEN" then Joined(name) else name,
                       if Unescape(v).Some? then Unescape(v).value else v))
            case _ => None
  {
    hide First, LastIndex, Unescape, ToLower, SystemOf, Joined;
    SpelledParts(kind, n, v);
  }

  lemma {:induction false} KeyParts(rest: string)
    requires KeyOf(rest).Some?
    ensures var slash := First(rest, {'/'});
            slash < |rest| && var at := LastIndex(rest[slash + 1..], '@'); at > 0 && rest[slash + 1..][at + 1..] != ""
  {
    hide Unescape, ToLower, SystemOf, Joined, First, LastIndex;
  }

  lemma {:induction false} CutAt(s: string, i: nat)
    requires i < |s|
    ensures s == s[..i] + [s[i]] + s[i + 1..]
  {
  }

  lemma {:induction false} CutAtFirst(s: string, c: char)
    requires c in s
    ensures var i := First(s, {c}); i < |s| && c !in s[..i] && s == s[..i] + [c] + s[i + 1..]
  {
    CutAt(s, First(s, {c}));
  }

  lemma {:induction false} CutAtLast(s: string, c: char)
    requires c in s
    ensures var i := LastIndex(s, c); i >= 0 && c !in s[i + 1..] && s == s[..i] + [c] + s[i + 1..]
  {
    CutAt(s, LastIndex(s, c));
  }

  /** What names no package: a type no slash ends, or no version past an `@` with something before it. */
  lemma {:induction false} OnlySpelledHasAKey(rest: string) returns (kind: string, n: string, v: string)
    requires KeyOf(rest).Some?
    ensures rest == kind + "/" + n + "@" + v && '/' !in kind && n != "" && v != "" && '@' !in v
  {
    KeyParts(rest);
    hide *;
    var slash := First(rest, {'/'});
    var path := rest[slash + 1..];
    var at := LastIndex(path, '@');
    assert '/' in rest by { assert rest[slash] == '/'; }
    assert '@' in path by { assert path[at] == '@'; }
    CutAtFirst(rest, '/');
    CutAtLast(path, '@');
    kind, n, v := rest[..slash], path[..at], path[at + 1..];
    Regrouped(kind, n, v);
  }

  lemma {:induction false} NamingOf(rest: string)
    requires rest != "" && !IsSpace(rest[|rest| - 1]) && '?' !in rest && '#' !in rest
    ensures Naming("pkg:" + rest) == Some(rest)
  {
    var p := "pkg:" + rest;
    assert p[0] == 'p' && p[|p| - 1] == rest[|rest| - 1];
    NothingToTrim(p);
    hide First, TrimSpace;
    assert p[4..] == rest;
    NoStop(rest, {'?', '#'});
    assert rest[..|rest|] == rest;
  }

  lemma {:induction false} ParseSpelled(kind: string, n: string, v: string)
    requires v != "" && !IsSpace(v[|v| - 1])
    requires forall c :: c in kind || c in n || c in v ==> c !in {'?', '#'}
    ensures Parse("pkg:" + kind + "/" + n + "@" + v) == KeyOf(kind + "/" + n + "@" + v)
  {
    hide KeyOf, Naming;
    var rest := kind + "/" + n + "@" + v;
    assert rest[|rest| - 1] == v[|v| - 1];
    NamingOf(rest);
    assert "pkg:" + rest == "pkg:" + kind + "/" + n + "@" + v by {
      assert "pkg:" + (kind + "/" + n + "@" + v) == "pkg:" + kind + "/" + n + "@" + v;
    }
  }

  /** Characters a purl may leave unescaped in its name or its version. */
  ghost predicate PlainInPurl(plain: char -> bool) {
    forall c :: plain(c) ==> c != '%' && c != '?' && c != '#' && !IsSpace(c)
  }

  lemma {:induction false} EscapeIsPlain(s: string, plain: char -> bool, upper: bool)
    requires s != "" && Bytes(s) && PlainInPurl(plain)
    ensures var e := Escape(s, plain, upper);
            && e != "" && !IsSpace(e[|e| - 1]) && (!plain('@') ==> '@' !in e)
            && forall c :: c in e ==> c !in {'?', '#'}
  {
    EscapeHolds(s, plain, upper);
    var e := Escape(s, plain, upper);
    assert e[|e| - 1] in e;
  }

  /** A purl written for a package of an indexed ecosystem, its name and its version percent-encoded, is read as
      that package at that version, whichever characters the encoding leaves plain. */
  lemma {:induction false} ParseUndoesWriting(kind: string, system: string, name: string, version: string,
          inName: char -> bool, inVersion: char -> bool, upper: bool)
    requires SystemOf(ToLower(kind)) == Some(system) && forall c :: c in kind ==> c !in {'/', '?', '#'}
    requires name != "" && version != "" && Bytes(name) && Bytes(version)
    requires PlainInPurl(inName) && PlainInPurl(inVersion) && !inVersion('@')
    ensures Parse("pkg:" + kind + "/" + Escape(name, inName, upper) + "@" + Escape(version, inVersion, upper)) ==
            Some(Key(system, if system == "MAVEN" then Joined(name) else name, version))
  {
    var n, v := Escape(name, inName, upper), Escape(version, inVersion, upper);
    EscapeIsPlain(name, inName, upper);
    EscapeIsPlain(version, inVersion, upper);
    UnescapeUndoesEscape(name, inName, upper);
    UnescapeUndoesEscape(version, inVersion, upper);
    hide *;
    KeyOfSpelled(kind, n, v);
    ParseSpelled(kind, n, v);
  }

  /** The group and the artifact of a Maven package meet at a colon. */
  lemma {:induction false} JoinedAt(group: string, artifact: string)
    requires '/' !in group
    ensures Joined(group + "/" + artifact) == group + ":" + artifact && Joined(group) == group
  {
    var s := group + "/" + artifact;
    assert s == group + ['/'] + artifact;
    FirstAt(group, '/', artifact, {'/'});
    NoStop(group, {'/'});
    assert s[..|group|] == group && s[|group| + 1..] == artifact;
  }

  /** The ecosystems indexed, and what the service calls them: their types in capitals, but for two. */
  lemma {:induction false} IndexedEcosystems(kind: string)
    ensures SystemOf(kind).Some? <==> kind in {"npm", "pypi", "cargo", "maven", "nuget", "golang", "gem"}
  {
  }

  lemma {:induction false} EcosystemNames(kind: string)
    requires SystemOf(kind).Some?
    ensures
      var system := SystemOf(kind).value;
      && (forall c :: c in system ==> 'A' <= c <= 'Z')
      && ToLower(system) == if kind == "golang" then "go" else if kind == "gem" then "rubygems" else kind
  {
  }

  lemma {:induction false} FirstOfConcat(s: string, t: string, stops: set<char>)
    requires t != "" && t[0] in stops
    ensures First(s + t, stops) == First(s, stops)
  {
    if s == "" {
      assert s + t == t;
    } else {
      assert (s + t)[1..] == s[1..] + t;
      FirstOfConcat(s[1..], t, stops);
    }
  }

  /** Purls that differ only in where the package comes from ask about one package. */
  lemma {:induction false} QualifiersDoNotCount(p: string, suffix: string)
    requires suffix != "" && suffix[0] in {'?', '#'}
    requires TrimSpace(p) == p && TrimSpace(p + suffix) == p + suffix && "pkg:" <= p
    ensures Parse(p + suffix) == Parse(p)
  {
    hide TrimSpace;
    var t := p + suffix;
    assert t[4..] == p[4..] + suffix;
    FirstOfConcat(p[4..], suffix, {'?', '#'});
    assert t[4..][..First(t[4..], {'?', '#'})] == p[4..][..First(p[4..], {'?', '#'})];
  }

  // ---- answers ----

  datatype Finding = Finding(kind: string, reason: string)

  datatype Answer = Answer(ofPackage: seq<Finding>, ofVersion: seq<Finding>, recommended: seq<string>)

  datatype Package = Package(findings: seq<Finding>, recommended: string)

  /** Whether a version is ahead of another by the order of the purl's ecosystem. */
  type Order = (string, string, string) -> bool

  /** The first recommendation ahead of the version asked about. */
  function Forward(ahead: Order, purl: string, version: string, recs: seq<string>): (r: string)
    ensures r != "" ==> exists i :: 0 <= i < |recs| && recs[i] == r && ahead(purl, version, r) &&
                                    forall j :: 0 <= j < i ==> !ahead(purl, version, recs[j])
    ensures r == "" ==> "" in recs || forall v :: v in recs ==> !ahead(purl, version, v)
  {
    if recs == [] then ""
    else if ahead(purl, version, recs[0]) then recs[0]
    else Forward(ahead, purl, version, recs[1..])
  }

  function Read(ahead: Order, purl: string, version: string, a: Answer): Package {
    Package(a.ofPackage + a.ofVersion, Forward(ahead, purl, version, a.recommended))
  }

  datatype Response = Response(key: Key, answer: Answer)

  /** What the service knows, and the order versions are compared by. */
  datatype World = World(knows: Key -> Option<Answer>, ahead: Order)

  /** What asking afresh says about a purl. */
  function Says(w: World, purl: string): Option<Package> {
    match Parse(purl)
    case None => None
    case Some(k) =>
      match w.knows(k)
      case None => None
      case Some(a) => Some(Read(w.ahead, purl, k.version, a))
  }

  /** What it says: of a purl that names a package the service knows, what it found of the package and then of the
      version, and the first version it recommends that is ahead of the one asked about. */
  lemma {:induction false} SaysExactly(w: World, purl: string, k: Key)
    requires Parse(purl) == Some(k)
    ensures Says(w, purl).Some? <==> w.knows(k).Some?
    ensures Says(w, purl).Some? ==>
      var a, p := w.knows(k).value, Says(w, purl).value;
      && p.findings == a.ofPackage + a.ofVersion
      && (p.recommended != "" ==>
            exists i ::
              0 <= i < |a.recommended| && a.recommended[i] == p.recommended &&
              w.ahead(purl, k.version, p.recommended) &&
              forall j :: 0 <= j < i ==> !w.ahead(purl, k.version, a.recommended[j]))
      && (p.recommended == "" && "" !in a.recommended ==>
            forall v :: v in a.recommended ==> !w.ahead(purl, k.version, v))
  {
    hide Parse, Forward;
  }

  /** A response that says what the service knows: about every key asked, and perhaps others. */
  ghost predicate Faithful(w: World, keys: seq<Key>, rs: seq<Response>) {
    && (forall r :: r in rs ==> w.knows(r.key) == Some(r.answer))
    && (forall k :: k in keys && w.knows(k).Some? ==> Response(k, w.knows(k).value) in rs)
  }

  /** No later purl of the list asks about the same package. */
  predicate LastOfItsKey(purls: seq<string>, i: nat)
    requires i < |purls|
  {
    forall j :: i < j < |purls| ==> Parse(purls[j]) != Parse(purls[i])
  }

  ghost predicate Asks(purls: seq<string>, p: string) {
    exists i :: 0 <= i < |purls| && purls[i] == p && LastOfItsKey(purls, i)
  }

  /** `fetch` up to its request: the keys to send, and which purl each is for. */
  method Requests(purls: seq<string>) returns (byKey: map<Key, string>, keys: seq<Key>)
    requires forall p :: p in purls ==> Parse(p).Some?
    ensures |keys| == |purls| && forall i :: 0 <= i < |purls| ==> Parse(purls[i]) == Some(keys[i])
    ensures forall k :: k in byKey <==> k in keys
    ensures forall k :: k in byKey ==> Asks(purls, byKey[k]) && Parse(byKey[k]) == Some(k)
    ensures forall p :: Asks(purls, p) ==> Parse(p).Some? && Parse(p).value in byKey && byKey[Parse(p).value] == p
  {
    hide Parse;
    byKey, keys := map[], [];
    ghost var at: map<Key, nat> := map[];
    for i := 0 to |purls|
      invariant |keys| == i && forall j :: 0 <= j < i ==> Parse(purls[j]) == Some(keys[j])
      invariant byKey.Keys == at.Keys && forall k :: k in byKey <==> k in keys
      invariant forall k :: k in at ==> at[k] < i && keys[at[k]] == k && byKey[k] == purls[at[k]]
      invariant forall j, k :: 0 <= j < i && k in at && keys[j] == k ==> j <= at[k]
    {
      var k := Parse(purls[i]).value;
      byKey := byKey[k := purls[i]];
      keys := keys + [k];
      at := at[k := i];
    }
    LastAskers(purls, byKey, keys, at);
  }

  lemma {:induction false} LastAskers(purls: seq<string>, byKey: map<Key, string>, keys: seq<Key>, at: map<Key, nat>)
    requires |keys| == |purls| && forall i :: 0 <= i < |purls| ==> Parse(purls[i]) == Some(keys[i])
    requires byKey.Keys == at.Keys && forall k :: k in byKey <==> k in keys
    requires forall k :: k in at ==> at[k] < |purls| && keys[at[k]] == k && byKey[k] == purls[at[k]]
    requires forall j, k :: 0 <= j < |purls| && k in at && keys[j] == k ==> j <= at[k]
    ensures forall k :: k in byKey ==> Asks(purls, byKey[k]) && Parse(byKey[k]) == Some(k)
    ensures forall p :: Asks(purls, p) ==> Parse(p).Some? && Parse(p).value in byKey && byKey[Parse(p).value] == p
  {
    hide Parse;
    forall k | k in byKey ensures Asks(purls, byKey[k]) && Parse(byKey[k]) == Some(k) {
      assert LastOfItsKey(purls, at[k]);
    }
    forall p | Asks(purls, p) ensures Parse(p).Some? && Parse(p).value in byKey && byKey[Parse(p).value] == p {
      var i :| 0 <= i < |purls| && purls[i] == p && LastOfItsKey(purls, i);
      assert keys[i] in byKey && i <= at[keys[i]];
    }
  }

  /** `decode`, over the responses of one batch. */
  method Decode(ahead: Order, rs: seq<Response>, byKey: map<Key, string>, ghost w: World)
    returns (out: map<string, Package>)
    requires ahead == w.ahead
    requires forall k :: k in byKey ==> Parse(byKey[k]) == Some(k)
    requires forall r :: r in rs ==> w.knows(r.key) == Some(r.answer)
    ensures forall p :: p in out <==> exists r :: r in rs && r.key in byKey && byKey[r.key] == p
    ensures forall p :: p in out ==> Says(w, p) == Some(out[p])
  {
    hide Parse;
    out := map[];
    for i := 0 to |rs|
      invariant forall p :: p in out <==> exists r :: r in rs[..i] && r.key in byKey && byKey[r.key] == p
      invariant forall p :: p in out ==> Says(w, p) == Some(out[p])
    {
      var r := rs[i];
      assert rs[..i + 1] == rs[..i] + [r] && r in rs;
      if r.key in byKey {
        var purl := byKey[r.key];
        var pkg := Decoded(ahead, purl, r.key.version, r.answer);
        out := out[purl := pkg];
      }
    }
    assert rs[..|rs|] == rs;
  }

  /** One response, read for one purl. */
  method Decoded(ahead: Order, purl: string, version: string, a: Answer) returns (pkg: Package)
    ensures pkg == Read(ahead, purl, version, a)
  {
    var recommended := "";
    for i := 0 to |a.recommended|
      invariant Forward(ahead, purl, version, a.recommended) == Forward(ahead, purl, version, a.recommended[i..])
      invariant recommended == ""
    {
      assert a.recommended[i..][1..] == a.recommended[i + 1..];
      if ahead(purl, version, a.recommended[i]) {
        recommended := a.recommended[i];
        break;
      }
    }
    return Package(a.ofPackage + a.ofVersion, recommended);
  }

  // ---- the client ----

  const PAGE := 100
  const CACHE_TTL := 3600

  datatype Cached = Cached(pkg: Package, fetched: int)

  /** The batches a list of purls goes out in. */
  function Batches(want: seq<string>): seq<seq<string>> {
    if |want| == 0 then []
    else if |want| <= PAGE then [want]
    else [want[..PAGE]] + Batches(want[PAGE..])
  }

  function Concat(batches: seq<seq<string>>): seq<string> {
    if batches == [] then [] else batches[0] + Concat(batches[1..])
  }

  /** Each purl wanted goes out in exactly one batch, in order, and no batch is empty or over a page. */
  lemma {:induction false} BatchesPartition(want: seq<string>)
    ensures Concat(Batches(want)) == want
    ensures forall b :: b in Batches(want) ==> 1 <= |b| <= PAGE
    decreases |want|
  {
    if |want| > PAGE {
      BatchesPartition(want[PAGE..]);
      assert (([want[..PAGE]]) + Batches(want[PAGE..]))[1..] == Batches(want[PAGE..]);
    } else if |want| > 0 {
      assert [want][1..] == [];
    }
  }

  /** The purls a call is about: trimmed, not empty, of an ecosystem the service indexes. */
  function Indexable(purls: seq<string>): set<string> {
    set i | 0 <= i < |purls| && TrimSpace(purls[i]) != "" && Parse(TrimSpace(purls[i])).Some? :: TrimSpace(purls[i])
  }

  /** Purls sorted into those to fetch, each once, and those the cache answered. */
  ghost predicate Sorted(want: seq<string>, hits: set<string>, all: set<string>) {
    && Distinct(want) && (forall p :: p in want ==> p !in hits)
    && forall p :: p in all <==> p in want || p in hits
  }

  lemma {:induction false} NothingSorted()
    ensures Sorted([], {}, {}) && Indexable([]) == {}
  {
  }

  lemma {:induction false} SortOne(want: seq<string>, hits: set<string>, all: set<string>, p: string)
    requires Sorted(want, hits, all) && p !in all
    ensures Sorted(want + [p], hits, all + {p}) && Sorted(want, hits + {p}, all + {p})
    ensures forall q :: q in want + [p] <==> q in want || q == p
  {
  }

  lemma {:induction false} SortedIs(want: seq<string>, hits: set<string>, all: set<string>)
    requires Sorted(want, hits, all)
    ensures Distinct(want) && (set p | p in want) !! hits && (set p | p in want) + hits == all
  {
  }

  /** A cache that has kept what was answered so far, no earlier than a time, and all else it held. */
  ghost predicate Kept(was: map<string, Cached>, now: map<string, Cached>, got: map<string, Package>,
                       left: set<string>, since: int) {
    && (forall p :: p in got && p !in left ==> p in now && now[p].fetched >= since)
    && forall p :: p in was && p !in got ==> p in now && now[p] == was[p]
  }

  lemma {:induction false} NothingKept(was: map<string, Cached>, got: map<string, Package>,
          out: map<string, Package>, since: int)
    ensures Kept(was, was, got, got.Keys, since) && out == out + (got - got.Keys)
  {
  }

  lemma {:induction false} KeptOne(was: map<string, Cached>, now: map<string, Cached>, got: map<string, Package>,
          left: set<string>, since: int, p: string, c: Cached, out: map<string, Package>)
    requires Kept(was, now, got, left, since) && p in left && p in got && c.fetched >= since
    ensures Kept(was, now[p := c], got, left - {p}, since)
    ensures out + (got - (left - {p})) == (out + (got - left))[p := got[p]]
  {
  }

  lemma {:induction false} KeptIs(was: map<string, Cached>, now: map<string, Cached>, got: map<string, Package>,
          since: int)
    requires Kept(was, now, got, {}, since)
    ensures forall p :: p in got ==> p in now && now[p].fetched >= since
    ensures forall p :: p in was && p !in got ==> p in now && now[p] == was[p]
  {
  }

  ghost predicate DistinctKeys(purls: set<string>) {
    forall p, q :: p in purls && q in purls && Parse(p) == Parse(q) ==> p == q
  }

  /** Answered by a batch that starts before `upto`: known to the service, and the last of its batch to ask
      about its package. */
  ghost predicate AnsweredBy(w: World, want: seq<string>, upto: nat, p: string) {
    exists k :: 0 <= k < |want| && k < upto && want[k] == p && LastInBatch(want, k) && Says(w, p).Some?
  }

  predicate LastInBatch(want: seq<string>, k: nat)
    requires k < |want|
  {
    forall j :: k < j < |want| && j / PAGE == k / PAGE ==> Parse(want[j]) != Parse(want[k])
  }

  class Client {
    ghost const world: World
    const ahead: Order
    /** What a request gets back: the call's number and the keys sent, to a response or a failure. */
    const serve: (nat, seq<Key>) -> Option<seq<Response>>
    const clock: nat -> int
    var calls: nat
    var ticks: nat
    var cache: map<string, Cached>
    /** The batches sent. */
    ghost var sent: seq<seq<string>>

    ghost predicate Valid()
      reads this
    {
      && ahead == world.ahead
      && (forall n, keys :: serve(n, keys).Some? ==> Faithful(world, keys, serve(n, keys).value))
      && (forall i, j :: 0 <= i <= j ==> clock(i) <= clock(j))
      && (forall p :: p in cache ==> Says(world, p) == Some(cache[p].pkg))
    }

    constructor (ghost world: World, ahead: Order, serve: (nat, seq<Key>) -> Option<seq<Response>>, clock: nat -> int)
      requires ahead == world.ahead
      requires forall n, keys :: serve(n, keys).Some? ==> Faithful(world, keys, serve(n, keys).value)
      requires forall i, j :: 0 <= i <= j ==> clock(i) <= clock(j)
      ensures Valid() && this.world == world && cache == map[] && sent == []
    {
      this.world, this.ahead, this.serve, this.clock := world, ahead, serve, clock;
      calls, ticks, cache, sent := 0, 0, map[], [];
    }

    /** `fetch`: what the service answers for one batch, read back to the purls that asked. */
    method Fetch(purls: seq<string>) returns (got: map<string, Package>, ok: bool)
      requires Valid() && forall p :: p in purls ==> Parse(p).Some?
      modifies this`calls, this`sent
      ensures Valid() && sent == old(sent) + [purls]
      ensures ok ==> forall p :: p in got <==> Asks(purls, p) && Says(world, p).Some?
      ensures forall p :: p in got ==> Says(world, p) == Some(got[p])
    {
      hide Parse, Read;
      var byKey, keys := Requests(purls);
      sent := sent + [purls];
      calls := calls + 1;
      var response := serve(calls, keys);
      if response.None? {
        return map[], false;
      }
      var rs := response.value;
      assert Faithful(world, keys, rs);
      got := Decode(ahead, rs, byKey, world);
      forall p ensures p in got <==> Asks(purls, p) && Says(world, p).Some? {
        if Asks(purls, p) && Says(world, p).Some? {
          var k := Parse(p).value;
          assert k in keys && Response(k, world.knows(k).value) in rs;
        }
      }
      return got, true;
    }

    /** `c.Now()`. */
    method Now() returns (t: int)
      modifies this`ticks
      ensures ticks == old(ticks) + 1 && t == clock(old(ticks))
    {
      t := clock(ticks);
      ticks := ticks + 1;
    }

    /** The first half of `Lookup`: what the cache answers, and what must be fetched. */
    method Split(purls: seq<string>) returns (out: map<string, Package>, want: seq<string>)
      requires Valid()
      modifies this`ticks
      ensures Valid() && ticks >= old(ticks)
      ensures Distinct(want) && (set p | p in want) !! out.Keys && (set p | p in want) + out.Keys == Indexable(purls)
      ensures forall p :: p in out ==>
        p in cache && out[p] == cache[p].pkg && clock(old(ticks)) - cache[p].fetched < CACHE_TTL
      ensures forall p :: p in want && p in cache ==> clock(ticks) - cache[p].fetched >= CACHE_TTL
    {
      hide Parse, TrimSpace, Sorted, Indexable, Says, Faithful;
      out, want := map[], [];
      var seen: set<string> := {};
      ghost var all: set<string> := {};
      NothingSorted();
      assert purls[..0] == [] && out.Keys == {};
      for i := 0 to |purls|
        invariant Valid() && ticks >= old(ticks) && all == Indexable(purls[..i])
        invariant Sorted(want, out.Keys, all) && all <= seen && forall p :: p in seen && Parse(p).Some? ==> p in all
        invariant forall p :: p in out ==>
          p in cache && out[p] == cache[p].pkg && clock(old(ticks)) - cache[p].fetched < CACHE_TTL
        invariant forall p :: p in want && p in cache ==> clock(ticks) - cache[p].fetched >= CACHE_TTL
      {
        var p := TrimSpace(purls[i]);
        IndexableSnoc(purls, i);
        if p == "" || p in seen {
          assert Indexable(purls[..i + 1]) == all;
          continue;
        }
        seen := seen + {p};
        if Parse(p).None? {
          continue;
        }
        SortOne(want, out.Keys, all, p);
        all := all + {p};
        if p in cache {
          var now := Now();
          if now - cache[p].fetched < CACHE_TTL {
            assert out[p := cache[p].pkg].Keys == out.Keys + {p};
            out := out[p := cache[p].pkg];
            continue;
          }
        }
        want := want + [p];
      }
      SortedIs(want, out.Keys, all);
      assert purls[..|purls|] == purls;
    }

    /** `Lookup`. `want` is what it had to fetch. */
    method Lookup(purls: seq<string>)
      returns (out: map<string, Package>, ok: bool, ghost want: seq<string>, ghost done: nat)
      requires Valid()
      modifies this
      ensures Valid()
      ensures Distinct(want) && (set p | p in want) <= Indexable(purls)
      ensures forall p :: p in Indexable(purls) && p !in want ==>
        p in old(cache) && clock(old(ticks)) - old(cache)[p].fetched < CACHE_TTL
      ensures forall p :: p in want && p in old(cache) ==> clock(ticks) - old(cache)[p].fetched >= CACHE_TTL
      ensures done <= |Batches(want)| && (ok <==> done == |Batches(want)|)
      ensures sent == old(sent) + Batches(want)[..if ok then done else done + 1]
      ensures forall p :: p in out ==> Says(world, p) == Some(out[p])
      ensures forall p :: p in out <==> (p in Indexable(purls) && p !in want) || AnsweredBy(world, want, done * PAGE, p)
      ensures forall p :: AnsweredBy(world, want, done * PAGE, p) ==>
        p in cache && cache[p].fetched >= clock(old(ticks))
    {
      hide Parse, Batches, Says, Faithful, AnsweredBy, Answers, Asks, Indexable, Distinct;
      var todo;
      out, todo := Split(purls);
      WantedParse(purls, todo);
      want := todo;
      done := 0;
      ghost var hits := out.Keys;
      NothingAnsweredYet(world, todo, out, cache, clock(old(ticks)));
      BatchCount(want);
      assert Batches(want)[..0] == [];
      var i := 0;
      while i < |todo|
        invariant want == todo
        invariant Valid() && i == done * PAGE && ticks >= old(ticks) && done <= |Batches(want)|
        invariant forall p :: p in want && p in old(cache) ==> clock(ticks) - old(cache)[p].fetched >= CACHE_TTL
        invariant sent == old(sent) + Batches(want)[..done]
        invariant Answers(world, want, i, hits, out, cache, clock(old(ticks)))
        decreases |todo| - i
      {
        var end := if i + PAGE < |todo| then i + PAGE else |todo|;
        BatchAt(want, done);
        var got;
        got, ok := Fetch(todo[i..end]);
        assert Batches(want)[..done + 1] == Batches(want)[..done] + [want[i..end]];
        if !ok {
          AnswersAre(world, want, i, hits, out, cache, clock(old(ticks)));
          return;
        }
        ghost var before, was, since := out, cache, ticks;
        out := Store(got, out);
        ClockRuns(old(ticks), since);
        MoreAnswers(world, want, done, hits, before, was, clock(old(ticks)), got, cache);
        done := done + 1;
        i := i + PAGE;
      }
      AnswersAre(world, want, i, hits, out, cache, clock(old(ticks)));
      ok := true;
    }

    lemma {:induction false} ClockRuns(i: nat, j: nat)
      requires Valid() && i <= j
      ensures clock(i) <= clock(j)
    {
    }

    /** One answer put in the cache, with the time. */
    method Keep(purl: string, pkg: Package)
      requires Valid() && Says(world, purl) == Some(pkg)
      modifies this`cache, this`ticks
      ensures Valid() && ticks == old(ticks) + 1
      ensures cache == old(cache)[purl := Cached(pkg, clock(old(ticks)))]
    {
      hide Says, Faithful;
      var now := Now();
      cache := cache[purl := Cached(pkg, now)];
    }

    /** Keeping what a batch answered, in whatever order the map gives it. */
    method Store(got: map<string, Package>, out: map<string, Package>) returns (r: map<string, Package>)
      requires Valid() && forall p :: p in got ==> Says(world, p) == Some(got[p])
      modifies this`cache, this`ticks
      ensures Valid() && ticks >= old(ticks) && r == out + got
      ensures forall p :: p in got ==> p in cache && cache[p].fetched >= clock(old(ticks))
      ensures forall p :: p in old(cache) && p !in got ==> p in cache && cache[p] == old(cache)[p]
    {
      hide Client.Valid, Says, Faithful, Kept;
      r := out;
      var left := got.Keys;
      ghost var was, since := cache, clock(ticks);
      NothingKept(was, got, out, since);
      while left != {}
        invariant Valid() && ticks >= old(ticks) && left <= got.Keys
        invariant r == out + (got - left) && Kept(was, cache, got, left, since)
        decreases left
      {
        var purl :| purl in left;
        ClockRuns(old(ticks), ticks);
        KeptOne(was, cache, got, left, since, purl, Cached(got[purl], clock(ticks)), out);
        left := left - {purl};
        r := r[purl := got[purl]];
        Keep(purl, got[purl]);
      }
      KeptIs(was, cache, got, since);
      assert got - {} == got;
    }
  }

  lemma {:induction false} BatchCount(want: seq<string>)
    ensures PAGE * |Batches(want)| >= |want| &&
      (if want == [] then Batches(want) == [] else PAGE * (|Batches(want)| - 1) < |want|)
    decreases |want|
  {
    if |want| > PAGE { BatchCount(want[PAGE..]); }
  }

  lemma {:induction false} PartOfRest(s: seq<string>, k: nat, a: nat, b: nat)
    requires k <= |s| && a <= b <= |s| - k
    ensures s[k..][a..b] == s[k + a..k + b]
  {
  }

  lemma {:induction false} BatchAt(want: seq<string>, n: nat)
    requires n * PAGE < |want|
    ensures n < |Batches(want)|
    ensures Batches(want)[n] == want[n * PAGE..BatchEnd(want, n)]
    decreases n
  {
    if n > 0 {
      var rest := want[PAGE..];
      BatchAt(rest, n - 1);
      var from, to := (n - 1) * PAGE, BatchEnd(rest, n - 1);
      assert from + PAGE == n * PAGE && to + PAGE == BatchEnd(want, n);
      PartOfRest(want, PAGE, from, to);
    } else if |want| <= PAGE {
      assert want[..|want|] == want;
    }
  }

  lemma {:induction false} WantedParse(purls: seq<string>, want: seq<string>)
    requires (set p | p in want) <= Indexable(purls)
    ensures forall p :: p in want ==> Parse(p).Some?
  {
    hide Parse, TrimSpace;
    forall p | p in want ensures Parse(p).Some? {
      assert p in set q | q in want;
      assert p in Indexable(purls);
      var i :| 0 <= i < |purls| && TrimSpace(purls[i]) != "" && Parse(TrimSpace(purls[i])).Some? &&
        TrimSpace(purls[i]) == p;
    }
  }

  lemma {:induction false} IndexableSnoc(purls: seq<string>, i: nat)
    requires i < |purls|
    ensures var p := TrimSpace(purls[i]);
            Indexable(purls[..i + 1]) == Indexable(purls[..i]) + (if p != "" && Parse(p).Some? then {p} else {})
  {
    hide TrimSpace, Parse;
    assert purls[..i + 1] == purls[..i] + [purls[i]];
    var a, b := Indexable(purls[..i + 1]), Indexable(purls[..i]);
    forall q | q in b ensures q in a {
      var j :| 0 <= j < i && TrimSpace(purls[..i][j]) == q;
      assert purls[..i + 1][j] == purls[j];
    }
    var p := TrimSpace(purls[i]);
    if p != "" && Parse(p).Some? { assert purls[..i + 1][i] == purls[i] && p in a; }
  }

  function BatchEnd(want: seq<string>, n: nat): nat {
    if n * PAGE + PAGE < |want| then n * PAGE + PAGE else |want|
  }

  lemma {:induction false} LastInItsBatch(want: seq<string>, n: nat, k: nat)
    requires n * PAGE <= k < BatchEnd(want, n)
    ensures LastInBatch(want, k) <==> LastOfItsKey(want[n * PAGE..BatchEnd(want, n)], k - n * PAGE)
  {
    hide Parse;
    var i, end := n * PAGE, BatchEnd(want, n);
    var batch := want[i..end];
    forall j: nat ensures j / PAGE == k / PAGE <==> i <= j < i + PAGE { SamePage(n, k, j); }
    if LastInBatch(want, k) {
      forall j | k - i < j < |batch| ensures Parse(batch[j]) != Parse(batch[k - i]) {
        assert batch[j] == want[i + j];
      }
    }
    if LastOfItsKey(batch, k - i) {
      forall j | k < j < |want| && j / PAGE == k / PAGE ensures Parse(want[j]) != Parse(want[k]) {
        assert batch[j - i] == want[j] && batch[k - i] == want[k];
      }
    }
  }

  lemma {:induction false} SamePage(n: nat, k: nat, j: nat)
    requires n * PAGE <= k < n * PAGE + PAGE
    ensures j / PAGE == k / PAGE <==> n * PAGE <= j < n * PAGE + PAGE
  {
    assert k / PAGE == n;
  }

  /** A purl is answered by the next batch when it asks last there about its package. */
  lemma {:induction false} BatchAnswers(w: World, want: seq<string>, n: nat, p: string)
    requires n * PAGE < |want|
    ensures AnsweredBy(w, want, n * PAGE + PAGE, p) <==>
            AnsweredBy(w, want, n * PAGE, p) || (Asks(want[n * PAGE..BatchEnd(want, n)], p) && Says(w, p).Some?)
  {
    hide Parse, Says, LastInBatch, LastOfItsKey;
    var i := n * PAGE;
    var batch := want[i..BatchEnd(want, n)];
    if Asks(batch, p) && Says(w, p).Some? {
      var k :| 0 <= k < |batch| && batch[k] == p && LastOfItsKey(batch, k);
      LastInItsBatch(want, n, i + k);
      assert LastInBatch(want, i + k) && want[i + k] == p;
    }
    if AnsweredBy(w, want, i + PAGE, p) && !AnsweredBy(w, want, i, p) {
      var k :| 0 <= k < |want| && k < i + PAGE && want[k] == p && LastInBatch(want, k) && Says(w, p).Some?;
      LastInItsBatch(want, n, k);
      assert LastOfItsKey(batch, k - i) && batch[k - i] == p;
    }
  }

  /** What a lookup has answered, `upto` purls into those it wants: the cache's hits and those it was told of,
      each as the service says, and each of the latter kept no earlier than a time. */
  ghost predicate Answers(w: World, want: seq<string>, upto: nat, hits: set<string>, out: map<string, Package>,
                          cache: map<string, Cached>, since: int) {
    && (forall p :: p in out ==> Says(w, p) == Some(out[p]))
    && (forall p :: p in out <==> p in hits || AnsweredBy(w, want, upto, p))
    && (forall p :: AnsweredBy(w, want, upto, p) ==> p in cache && cache[p].fetched >= since)
  }

  lemma {:induction false} NothingAnsweredYet(w: World, want: seq<string>, out: map<string, Package>,
          cache: map<string, Cached>, since: int)
    requires forall p :: p in out ==> Says(w, p) == Some(out[p])
    ensures Answers(w, want, 0, out.Keys, out, cache, since)
  {
    hide Says, LastInBatch;
  }

  lemma {:induction false} AnswersAre(w: World, want: seq<string>, upto: nat, hits: set<string>,
          out: map<string, Package>, cache: map<string, Cached>, since: int)
    requires Answers(w, want, upto, hits, out, cache, since)
    ensures forall p :: p in out ==> Says(w, p) == Some(out[p])
    ensures forall p :: p in out <==> p in hits || AnsweredBy(w, want, upto, p)
    ensures forall p :: AnsweredBy(w, want, upto, p) ==> p in cache && cache[p].fetched >= since
  {
  }

  lemma {:induction false} MoreAnswers(w: World, want: seq<string>, n: nat, hits: set<string>,
          out: map<string, Package>, cache: map<string, Cached>, since: int,
          got: map<string, Package>, now: map<string, Cached>)
    requires n * PAGE < |want| && Answers(w, want, n * PAGE, hits, out, cache, since)
    requires forall p :: p in got <==> Asks(want[n * PAGE..BatchEnd(want, n)], p) && Says(w, p).Some?
    requires forall p :: p in got ==> Says(w, p) == Some(got[p]) && p in now && now[p].fetched >= since
    requires forall p :: p in cache && p !in got ==> p in now && now[p] == cache[p]
    ensures Answers(w, want, n * PAGE + PAGE, hits, out + got, now, since)
  {
    hide AnsweredBy, Says, Asks;
    forall p ensures AnsweredBy(w, want, n * PAGE + PAGE, p) <==> AnsweredBy(w, want, n * PAGE, p) || p in got {
      BatchAnswers(w, want, n, p);
    }
  }

  /** Where no two purls of a call ask about one package, a call that succeeds answers exactly what asking
      afresh for each would, whatever the cache held and however the purls fell into batches. */
  lemma {:induction false} DistinctKeysAnswerAll(w: World, purls: seq<string>, want: seq<string>,
          out: map<string, Package>, done: nat)
    requires DistinctKeys(Indexable(purls)) && Distinct(want) && (set p | p in want) <= Indexable(purls)
    requires done == |Batches(want)|
    requires forall p :: p in Indexable(purls) && p !in want ==> Says(w, p).Some?
    requires forall p :: p in out ==> Says(w, p) == Some(out[p])
    requires forall p :: p in out <==> (p in Indexable(purls) && p !in want) || AnsweredBy(w, want, done * PAGE, p)
    ensures out == Afresh(w, purls)
  {
    hide Parse, Says, TrimSpace, Indexable;
    BatchCount(want);
    forall p | p in Indexable(purls) && Says(w, p).Some? ensures p in out {
      if p in want {
        var k :| 0 <= k < |want| && want[k] == p;
        forall j | k < j < |want| ensures Parse(want[j]) != Parse(want[k]) {
          assert want[j] in (set q | q in want) && want[k] in (set q | q in want);
        }
        assert LastInBatch(want, k);
      }
    }
    forall p | p in out ensures p in Indexable(purls) {
      if AnsweredBy(w, want, done * PAGE, p) { assert p in set q | q in want; }
    }
  }

  /** In general a purl that must be fetched goes unanswered exactly when the service does not know its
      package, or a later purl of the same batch asks about the same one. */
  lemma {:induction false} UnansweredExactly(w: World, want: seq<string>, k: nat)
    requires Distinct(want) && k < |want|
    ensures !AnsweredBy(w, want, |Batches(want)| * PAGE, want[k]) <==>
            Says(w, want[k]).None? || exists j ::
              k < j < |want| && j / PAGE == k / PAGE && Parse(want[j]) == Parse(want[k])
  {
    hide Parse, Says;
    BatchCount(want);
    if LastInBatch(want, k) && Says(w, want[k]).Some? {
      assert AnsweredBy(w, want, |Batches(want)| * PAGE, want[k]);
    }
    if AnsweredBy(w, want, |Batches(want)| * PAGE, want[k]) {
      var i :| 0 <= i < |want| && want[i] == want[k] && LastInBatch(want, i);
      assert i == k;
    }
  }

  lemma {:induction false} NothingToTrim(s: string)
    requires s != "" && !IsSpace(s[0]) && !IsSpace(s[|s| - 1])
    ensures TrimSpace(s) == s
  {
  }

  lemma {:induction false} ExampleKey()
    ensures KeyOf("npm/a@1") == Some(Key("NPM", "a", "1"))
  {
    var rest := "npm/a@1";
    hide First, LastIndex, Unescape, ToLower;
    assert First(rest, {'/'}) == 3 by { assert rest[3] == '/'; }
    assert rest[..3] == "npm" && rest[4..] == "a@1";
    assert ToLower("npm") == "npm" by { ExampleIsLower(); }
    assert LastIndex("a@1", '@') == 1 by { assert "a@1"[1] == '@'; }
    assert "a@1"[..1] == "a" && "a@1"[2..] == "1";
    PlainNeedsNoUnescaping("a");
    PlainNeedsNoUnescaping("1");
  }

  /** Characters left plain where all that can be is. */
  predicate LeftPlain(c: char) { c !in {'%', '?', '#', '@'} && !IsSpace(c) }

  lemma {:induction false} EscapePlain(s: string)
    requires Bytes(s) && forall c :: c in s ==> LeftPlain(c)
    ensures Escape(s, LeftPlain, true) == s
  {
    if s != "" {
      EscapePlain(s[1..]);
      assert s[0] in s && s == [s[0]] + s[1..];
    }
  }

  lemma {:induction false} EscapeAt(rest: string)
    requires Bytes(rest) && Escape(rest, LeftPlain, true) == rest
    ensures Bytes("@" + rest) && Escape("@" + rest, LeftPlain, true) == "%40" + rest
  {
    var s := "@" + rest;
    assert s[0] == '@' && s[1..] == rest;
    assert ['%', Digit(4, true), Digit(0, true)] == "%40";
  }

  lemma {:induction false} NpmIsIndexed()
    ensures SystemOf(ToLower("npm")) == Some("NPM") && forall c :: c in "npm" ==> c !in {'/', '?', '#'}
  {
    ExampleIsLower();
    hide ToLower;
  }

  lemma {:induction false} ScopedSpelling(rest: string, version: string)
    ensures "pkg:" + "npm" + "/" + ("%40" + rest) + "@" + version == "pkg:npm/%40" + rest + "@" + version
  {
    assert "pkg:" + "npm" + "/" + "%40" == "pkg:npm/%40";
  }

  /** A scoped npm name, whose `@` a purl must escape. */
  lemma {:induction false} ScopedNameParses(rest: string, version: string)
    requires version != "" && Bytes(rest) && Bytes(version)
    requires forall c :: c in rest || c in version ==> LeftPlain(c)
    ensures Parse("pkg:npm/%40" + rest + "@" + version) == Some(Key("NPM", "@" + rest, version))
  {
    NpmIsIndexed();
    EscapePlain(version);
    EscapePlain(rest);
    EscapeAt(rest);
    assert PlainInPurl(LeftPlain) && !LeftPlain('@');
    hide *;
    ScopedSpelling(rest, version);
    ParseUndoesWriting("npm", "NPM", "@" + rest, version, LeftPlain, LeftPlain, true);
  }

  /** The scoped package of the repository's own tests. */
  lemma {:induction false} ScopedExample()
    ensures Parse("pkg:npm/%40scope/thing@1.0.0") == Some(Key("NPM", "@scope/thing", "1.0.0"))
  {
    hide Parse;
    ScopedNameParses("scope/thing", "1.0.0");
    assert "pkg:npm/%40" + "scope/thing" + "@" + "1.0.0" == "pkg:npm/%40scope/thing@1.0.0";
    assert "@" + "scope/thing" == "@scope/thing";
  }

  lemma {:induction false} ExampleIsLower()
    ensures ToLower("npm") == "npm"
  {
  }

  lemma {:induction false} PlainNeedsNoUnescaping(s: string)
    requires |s| == 1 && s[0] != '%'
    ensures Unescape(s) == Some(s)
  {
    assert s[1..] == "" && Unescape("") == Some("") && s == [s[0]] + "";
  }

  lemma {:induction false} ExampleNames()
    ensures Naming("pkg:npm/a@1") == Some("npm/a@1")
  {
    var p := "pkg:npm/a@1";
    assert p[0] == 'p' && p[10] == '1';
    NothingToTrim(p);
    hide First, TrimSpace;
    assert p[4..] == "npm/a@1";
    NoStop("npm/a@1", {'?', '#'});
    assert "npm/a@1"[..7] == "npm/a@1";
  }

  lemma {:induction false} NoStop(s: string, stops: set<char>)
    requires forall c :: c in s ==> c !in stops
    ensures First(s, stops) == |s|
  {
  }

  lemma {:induction false} ExampleParses()
    ensures Parse("pkg:npm/a@1") == Some(Key("NPM", "a", "1"))
  {
    hide KeyOf, Naming;
    ExampleNames();
    ExampleKey();
  }

  /** Two spellings of one package in one call: only the later is answered. `pkg:npm/a@1` is such a
      package. */
  lemma {:induction false} EarlierSpellingGoesUnanswered(w: World, p: string, suffix: string)
    requires suffix != "" && suffix[0] in {'?', '#'}
    requires TrimSpace(p) == p && TrimSpace(p + suffix) == p + suffix && "pkg:" <= p
    requires Parse(p).Some? && w.knows(Parse(p).value).Some?
    ensures !AnsweredBy(w, [p + suffix, p], PAGE, p + suffix) && AnsweredBy(w, [p + suffix, p], PAGE, p)
  {
    hide Parse, TrimSpace;
    QualifiersDoNotCount(p, suffix);
    var want := [p + suffix, p];
    assert Parse(want[0]) == Parse(want[1]) && want[0] != want[1];
    assert LastInBatch(want, 1) && !LastInBatch(want, 0) by { assert 1 / PAGE == 0 / PAGE; }
  }

  /** One call after another on one client: each that succeeds, of purls with distinct keys, answers what
      asking afresh would. */
  method Calls(c: Client, calls: seq<seq<string>>) returns (outs: seq<Option<map<string, Package>>>)
    requires c.Valid() && forall purls :: purls in calls ==> DistinctKeys(Indexable(purls))
    modifies c
    ensures c.Valid() && |outs| == |calls|
    ensures forall i :: 0 <= i < |calls| && outs[i].Some? ==> outs[i].value == Afresh(c.world, calls[i])
  {
    hide Parse, Says, Indexable, Client.Valid, DistinctKeys;
    outs := [];
    for i := 0 to |calls|
      invariant c.Valid() && |outs| == i
      invariant forall j :: 0 <= j < i && outs[j].Some? ==> outs[j].value == Afresh(c.world, calls[j])
    {
      assert calls[i] in calls;
      var out, ok, want, done := c.Lookup(calls[i]);
      if ok {
        DistinctKeysAnswerAll(c.world, calls[i], want, out, done);
      }
      outs := outs + [if ok then Some(out) else None];
    }
  }

  /** What asking afresh for every indexable purl returns. */
  ghost function Afresh(w: World, purls: seq<string>): map<string, Package> {
    map p | p in Indexable(purls) && Says(w, p).Some? :: Says(w, p).value
  }
}
