/**
  Package URLs (internal/enrich/cpe/purl.go). The query string is kept undecoded.
*/
module Purls {
  import opened Wrappers
  import opened Strings

  datatype Purl = Purl(
    typ: string, namespace: string, name: string, version: string, query: string, subpath: string)

  const SCHEME := "pkg:"

  function LastIndexOf(s: string, c: char): (i: int)
    ensures -1 <= i < |s|
    ensures i < 0 <==> c !in s
    ensures i >= 0 ==> s[i] == c && c !in s[i + 1..]
  {
    if s == [] then -1
    else if s[|s| - 1] == c then |s| - 1
    else
      assert s == s[..|s| - 1] + [s[|s| - 1]];
      var i := LastIndexOf(s[..|s| - 1], c);
      assert i >= 0 ==> s[i + 1..] == s[..|s| - 1][i + 1..] + [s[|s| - 1]];
      i
  }

  function HexValue(c: char): Option<nat> {
    if '0' <= c <= '9' then Some((c - '0') as nat)
    else if 'a' <= c <= 'f' then Some((c - 'a') as nat + 10)
    else if 'A' <= c <= 'F' then Some((c - 'A') as nat + 10)
    else None
  }

  /** Percent-decoding; None for a malformed escape. */
  function Unescape(s: string): Option<string> {
    if s == [] then Some([])
    else if s[0] != '%' then
      (match Unescape(s[1..])
       case None => None
       case Some(rest) => Some([s[0]] + rest))
    else if |s| < 3 || HexValue(s[1]).None? || HexValue(s[2]).None? then None
    else
      match Unescape(s[3..])
      case None => None
      case Some(rest) => Some([(16 * HexValue(s[1]).value + HexValue(s[2]).value) as char] + rest)
  }

  /** A segment with a malformed escape is kept as it is. */
  function DecodeSegment(s: string): string {
    match Unescape(s)
    case Some(decoded) => decoded
    case None => s
  }

  function DecodeAll(segments: seq<string>): (r: seq<string>)
    ensures |r| == |segments| && forall i :: 0 <= i < |r| ==> r[i] == DecodeSegment(segments[i])
  {
    seq(|segments|, i requires 0 <= i < |segments| => DecodeSegment(segments[i]))
  }

  /** What stands before c and after it, cut at index i; everything and nothing when i is negative. */
  function Before(s: string, i: int): string
    requires i < |s|
  {
    if i < 0 then s else s[..i]
  }

  function Behind(s: string, i: int): string
    requires i < |s|
  {
    if i < 0 then "" else s[i + 1..]
  }

  /** Subpath behind the last '#', query behind the last '?', version behind the first '@', then the path. */
  function Parse(s: string): Option<Purl> {
    if !(SCHEME <= s) then None
    else
      var rest0 := s[|SCHEME|..];
      var hash := LastIndexOf(rest0, '#');
      var rest1 := Before(rest0, hash);
      var question := LastIndexOf(rest1, '?');
      var rest2 := Before(rest1, question);
      var at := IndexOf(rest2, '@');
      ParsePath(Before(rest2, at), Behind(rest2, at), Behind(rest1, question), Behind(rest0, hash))
  }

  /** The type, the namespace and the name, which is the last segment. */
  function ParsePath(path: string, version: string, query: string, subpath: string): Option<Purl> {
    var slash := IndexOf(path, '/');
    if slash < 0 then None
    else
      var segments := Split(path[slash + 1..], '/');
      var last := segments[|segments| - 1];
      if last == "" then None
      else
        Some(Purl(Lower(path[..slash]), Join(DecodeAll(segments[..|segments| - 1]), '/'), DecodeSegment(last),
                  version, query, subpath))
  }

  function Body(p: Purl): string {
    (if p.namespace == "" then "" else p.namespace + "/") + p.name
  }

  function ToString(p: Purl): string {
    SCHEME + p.typ + "/" + Body(p) + if p.version == "" then "" else "@" + p.version
  }

  ghost predicate Avoids(s: string, cs: set<char>) {
    forall c :: c in cs ==> c !in s
  }

  /** No part holds a delimiter that would cut it, and decoding changes neither name nor namespace. */
  ghost predicate Plain(p: Purl) {
    && p.query == "" && p.subpath == ""
    && Lower(p.typ) == p.typ && Avoids(p.typ, {'/', '@', '?', '#'})
    && Avoids(p.namespace, {'@', '?', '#'}) && Join(DecodeAll(Split(p.namespace, '/')), '/') == p.namespace
    && p.name != "" && Avoids(p.name, {'/', '@', '?', '#'}) && DecodeSegment(p.name) == p.name
    && Avoids(p.version, {'?', '#'})
  }

  lemma {:induction false} UnescapeKeeps(s: string)
    requires '%' !in s
    ensures Unescape(s) == Some(s)
  {
    if s != [] {
      UnescapeKeeps(s[1..]);
      assert s == [s[0]] + s[1..];
    }
  }

  lemma {:induction false} JoinSnoc(parts: seq<string>, last: string, c: char)
    requires parts != []
    ensures Join(parts + [last], c) == Join(parts, c) + [c] + last
  {
    if |parts| == 1 {
      assert (parts + [last])[1..] == [last];
    } else {
      JoinSnoc(parts[1..], last, c);
      assert (parts + [last])[1..] == parts[1..] + [last];
    }
  }

  lemma SplitBody(p: Purl)
    requires '/' !in p.name
    ensures Split(Body(p), '/') == (if p.namespace == "" then [] else Split(p.namespace, '/')) + [p.name]
  {
    if p.namespace == "" {
      assert Body(p) == Join([p.name], '/');
      SplitJoin([p.name], '/');
    } else {
      var parts := Split(p.namespace, '/');
      JoinSnoc(parts, p.name, '/');
      JoinSplit(p.namespace, '/');
      SplitJoin(parts + [p.name], '/');
    }
  }

  /** What is left in front of the version, query and subpath. */
  lemma CutTail(p: Purl)
    requires Plain(p)
    ensures var rest := ToString(p)[|SCHEME|..];
      && LastIndexOf(rest, '#') == -1 && LastIndexOf(rest, '?') == -1
      && Before(rest, IndexOf(rest, '@')) == p.typ + "/" + Body(p)
      && Behind(rest, IndexOf(rest, '@')) == p.version
  {
    hide Split, Join, DecodeAll, DecodeSegment, Lower;
    var path := p.typ + "/" + Body(p);
    var rest := ToString(p)[|SCHEME|..];
    assert rest == path + if p.version == "" then "" else "@" + p.version;
    assert Avoids(Body(p), {'@', '?', '#'});
    assert Avoids(path, {'@', '?', '#'});
    assert Avoids(rest, {'?', '#'});
    if p.version == "" {
      assert rest == path;
    } else {
      assert rest == path + ['@'] + p.version;
      IndexOfFirst(path, '@', p.version);
    }
  }

  function Front(p: Purl): seq<string> {
    if p.namespace == "" then [] else Split(p.namespace, '/')
  }

  lemma SegmentsReadBack(p: Purl)
    requires '/' !in p.name
    ensures Split(Body(p), '/') == Front(p) + [p.name]
    ensures Join(DecodeAll(Front(p)), '/') == Join(DecodeAll(Split(p.namespace, '/')), '/')
  {
    hide Split, Join, IndexOf, LastIndexOf, Unescape, Lower;
    SplitBody(p);
    if p.namespace == "" {
      SplitNothing();
      assert DecodeAll([]) == [];
      assert DecodeAll([""]) == [""];
    }
  }

  lemma SplitNothing()
    ensures Split("", '/') == [""] && Join([""], '/') == "" == Join([], '/')
    ensures DecodeSegment("") == ""
  {
  }

  function PathOf(p: Purl): string {
    p.typ + "/" + Body(p)
  }

  lemma PathCut(p: Purl)
    ensures var path := PathOf(p);
      && |p.typ| < |path| && path[|p.typ|] == '/' && path[..|p.typ|] == p.typ && path[|p.typ| + 1..] == Body(p)
      && IndexOf(path, '/') >= 0 && ('/' !in p.typ ==> IndexOf(path, '/') == |p.typ|)
  {
    hide Body;
    var path := PathOf(p);
    assert path == p.typ + ['/'] + Body(p);
    if '/' !in p.typ {
      IndexOfFirst(p.typ, '/', Body(p));
    }
    assert path[|p.typ|] == '/' && '/' in path;
  }

  lemma FrontOf(p: Purl)
    ensures var segments := Front(p) + [p.name];
      segments[..|segments| - 1] == Front(p) && segments[|segments| - 1] == p.name
  {
    hide Front;
  }

  lemma PathParses(p: Purl)
    requires Plain(p)
    ensures ParsePath(PathOf(p), p.version, "", "") == Some(p)
  {
    hide Split, Join, IndexOf, DecodeSegment, DecodeAll, Front, Body, PathOf, Lower;
    SegmentsReadBack(p);
    PathCut(p);
    FrontOf(p);
  }

  // ----- What parsing can give back -----

  function PathSize(p: Purl): nat {
    |p.typ| + 1 + (if p.namespace == "" then 0 else |p.namespace| + 1) + |p.name|
  }

  /** The length of the printed form without its scheme. */
  function Size(p: Purl): nat {
    PathSize(p) + if p.version == "" then 0 else 1 + |p.version|
  }

  lemma {:induction false} UnescapeShrinks(s: string)
    ensures Unescape(s).Some? ==> |Unescape(s).value| <= |s|
  {
    if s != [] && s[0] != '%' {
      UnescapeShrinks(s[1..]);
    } else if |s| >= 3 {
      UnescapeShrinks(s[3..]);
    }
  }

  lemma {:induction false} DecodedJoinShrinks(parts: seq<string>)
    ensures |Join(DecodeAll(parts), '/')| <= |Join(parts, '/')|
  {
    hide Unescape;
    if parts != [] {
      UnescapeShrinks(parts[0]);
      DecodedJoinShrinks(parts[1..]);
      assert DecodeAll(parts)[1..] == DecodeAll(parts[1..]);
    }
  }

  /** The last piece, behind the joined others. */
  lemma BodyPieces(body: string)
    ensures var segments := Split(body, '/');
      var front, last := segments[..|segments| - 1], segments[|segments| - 1];
      && '/' !in last
      && body == (if front == [] then last else Join(front, '/') + ['/'] + last)
  {
    JoinSplit(body, '/');
    var segments := Split(body, '/');
    var front, last := segments[..|segments| - 1], segments[|segments| - 1];
    assert last in segments && segments == front + [last];
    hide Split;
    if front != [] {
      JoinSnoc(front, last, '/');
    } else {
      assert segments == [last];
    }
  }

  lemma DecodeShrinks(s: string)
    ensures |DecodeSegment(s)| <= |s|
  {
    UnescapeShrinks(s);
  }

  lemma PathShrinks(path: string, version: string, query: string, subpath: string)
    ensures var q := ParsePath(path, version, query, subpath);
      q.Some? ==> PathSize(q.value) <= |path|
  {
    hide Split, Join, DecodeSegment, DecodeAll, IndexOf, Lower;
    var slash := IndexOf(path, '/');
    if slash >= 0 {
      var body := path[slash + 1..];
      var segments := Split(body, '/');
      var front, last := segments[..|segments| - 1], segments[|segments| - 1];
      BodyPieces(body);
      DecodeShrinks(last);
      DecodedJoinShrinks(front);
      NothingDecoded();
    }
  }

  lemma NothingDecoded()
    ensures DecodeAll([]) == [] && Join([], '/') == ""
  {
  }

  lemma CutLength(s: string, i: int)
    requires -1 <= i < |s|
    ensures |s| == if i < 0 then |Before(s, i)| else |Before(s, i)| + 1 + |Behind(s, i)|
  {
  }

  /** What is read from a text is no longer than the text, and shorter if a query or a subpath is cut off. */
  lemma ParseShrinks(rest: string)
    ensures var q := Parse(SCHEME + rest);
      q.Some? ==> Size(q.value) <= |rest| && ('#' in rest || '?' in rest ==> Size(q.value) < |rest|)
  {
    hide LastIndexOf, IndexOf, ParsePath, PathSize, Before, Behind;
    assert (SCHEME + rest)[|SCHEME|..] == rest;
    var hash := LastIndexOf(rest, '#');
    var rest1 := Before(rest, hash);
    var question := LastIndexOf(rest1, '?');
    var rest2 := Before(rest1, question);
    var at := IndexOf(rest2, '@');
    CutLength(rest, hash);
    CutLength(rest1, question);
    CutLength(rest2, at);
    NoCut(rest, hash);
    NoCut(rest2, at);
    PathShrinks(Before(rest2, at), Behind(rest2, at), Behind(rest1, question), Behind(rest, hash));
    PathKeepsRest(Before(rest2, at), Behind(rest2, at), Behind(rest1, question), Behind(rest, hash));
  }

  lemma NoCut(s: string, i: int)
    requires i < |s|
    ensures i < 0 ==> Before(s, i) == s && Behind(s, i) == ""
  {
  }

  lemma PathKeepsRest(path: string, version: string, query: string, subpath: string)
    ensures var q := ParsePath(path, version, query, subpath);
      q.Some? ==> q.value.version == version && q.value.query == query && q.value.subpath == subpath
  {
    hide IndexOf, Split, Join, DecodeAll, DecodeSegment;
  }

  // ----- What survives -----

  function RestOf(p: Purl): string {
    PathOf(p) + if p.version == "" then "" else "@" + p.version
  }

  lemma RestIs(p: Purl)
    ensures ToString(p) == SCHEME + RestOf(p) && |RestOf(p)| == Size(p)
  {
  }

  /** A PURL that comes back has no delimiter in front of its version, and its path parses to it. */
  lemma SurvivorHasPlainTail(p: Purl)
    requires Parse(ToString(p)) == Some(p)
    ensures Avoids(RestOf(p), {'#', '?'}) && '@' !in PathOf(p)
    ensures ParsePath(PathOf(p), p.version, p.query, p.subpath) == Some(p)
    ensures p.query == "" && p.subpath == ""
  {
    var rest, path := RestOf(p), PathOf(p);
    RestIs(p);
    ParseShrinks(rest);
    assert '#' !in rest && '?' !in rest;
    assert LastIndexOf(rest, '#') == -1 && LastIndexOf(rest, '?') == -1;
    assert (SCHEME + rest)[|SCHEME|..] == rest;
    var at := IndexOf(rest, '@');
    hide LastIndexOf, ParsePath, Size, Body, PathOf;
    assert Parse(SCHEME + rest) == ParsePath(Before(rest, at), Behind(rest, at), "", "");
    PathKeepsRest(Before(rest, at), Behind(rest, at), "", "");
    AtIsBehindPath(p, path, rest, at);
  }

  lemma AtIsBehindPath(p: Purl, path: string, rest: string, at: int)
    requires rest == path + (if p.version == "" then "" else "@" + p.version) && at == IndexOf(rest, '@')
    requires Behind(rest, at) == p.version && |rest| == Size(p)
    requires ParsePath(Before(rest, at), p.version, "", "") == Some(p)
    ensures '@' !in path && Before(rest, at) == path
  {
    if p.version == "" {
      assert rest == path;
      PathShrinks(Before(rest, at), p.version, "", "");
      CutLength(rest, at);
    } else {
      assert rest[|path|] == '@';
      assert at == |path|;
      assert rest[..at] == path;
    }
  }

  /** A path that parses to the parts it was printed from has plain parts. */
  lemma SurvivorHasPlainPath(p: Purl)
    requires ParsePath(PathOf(p), p.version, p.query, p.subpath) == Some(p)
    ensures '/' !in p.typ && Lower(p.typ) == p.typ
    ensures p.name != "" && '/' !in p.name && DecodeSegment(p.name) == p.name
    ensures Join(DecodeAll(Split(p.namespace, '/')), '/') == p.namespace
  {
    hide Split, Join, DecodeSegment, DecodeAll, Front, Body, PathOf;
    PathCut(p);
    assert IndexOf(PathOf(p), '/') == |p.typ|;
    SurvivorsName(p);
    SegmentsReadBack(p);
    FrontOf(p);
  }

  lemma SurvivorsName(p: Purl)
    requires DecodeSegment(Split(Body(p), '/')[|Split(Body(p), '/')| - 1]) == p.name
    ensures '/' !in p.name
  {
    var segments := Split(Body(p), '/');
    var last := segments[|segments| - 1];
    BodyPieces(Body(p));
    UnescapeShrinks(last);
    hide Split, Join;
    assert |p.name| <= |last|;
    NameInLast(Body(p), last, p.name);
  }

  /** Of two ends of one text, the shorter one is an end of the other. */
  lemma NameInLast(body: string, last: string, name: string)
    requires |name| <= |last| <= |body| && body[|body| - |last|..] == last && body[|body| - |name|..] == name
    requires '/' !in last
    ensures '/' !in name
  {
    assert last[|last| - |name|..] == name;
  }

  /** Parsing what String prints gives the same PURL, exactly if it is plain. */
  lemma ParseUndoesToString(p: Purl)
    ensures Parse(ToString(p)) == Some(p) <==> Plain(p)
  {
    hide Parse, ToString, Split, Join, DecodeSegment, DecodeAll, Lower, PathOf, RestOf;
    if Plain(p) {
      PlainSurvives(p);
    }
    if Parse(ToString(p)) == Some(p) {
      SurvivorHasPlainTail(p);
      SurvivorHasPlainPath(p);
      PartsOf(p);
    }
  }

  lemma PartsOf(p: Purl)
    ensures forall c :: c in p.typ || c in p.namespace || c in p.name ==> c in PathOf(p)
    ensures forall c :: c in p.version || c in PathOf(p) ==> c in RestOf(p)
  {
  }

  /** Without escapes, decoding changes nothing. */
  lemma EscapeFreeIsUndecoded(p: Purl)
    requires '%' !in p.namespace && '%' !in p.name
    ensures Join(DecodeAll(Split(p.namespace, '/')), '/') == p.namespace && DecodeSegment(p.name) == p.name
  {
    SplitAvoids(p.namespace, '/', '%');
    DecodeKeeps(Split(p.namespace, '/'));
    UnescapeKeeps(p.name);
    JoinSplit(p.namespace, '/');
  }

  lemma DecodeKeeps(segments: seq<string>)
    requires forall s :: s in segments ==> '%' !in s
    ensures DecodeAll(segments) == segments
  {
    forall i | 0 <= i < |segments| ensures DecodeAll(segments)[i] == segments[i] {
      assert segments[i] in segments;
      UnescapeKeeps(segments[i]);
    }
  }

  lemma {:induction false} SplitAvoids(s: string, c: char, d: char)
    requires d !in s
    ensures forall p :: p in Split(s, c) ==> d !in p
  {
    if s != [] {
      SplitAvoids(s[1..], c, d);
      assert s == [s[0]] + s[1..];
    }
  }

  lemma PlainSurvives(p: Purl)
    requires Plain(p)
    ensures Parse(ToString(p)) == Some(p)
  {
    hide IndexOf, LastIndexOf, Body, ParsePath, Plain;
    CutTail(p);
    PathParses(p);
  }

  // ----- What a text is read as -----

  function Tail(c: char, part: Option<string>): string {
    match part
    case None => ""
    case Some(text) => [c] + text
  }

  function OrEmpty(part: Option<string>): string {
    if part.Some? then part.value else ""
  }

  lemma LastAt(front: string, c: char, back: string)
    requires c !in back
    ensures LastIndexOf(front + [c] + back, c) == |front|
  {
    var s := front + [c] + back;
    var i := LastIndexOf(s, c);
    hide LastIndexOf;
    assert s[|front|] == c && s[|front| + 1..] == back;
    assert s[|front|] in s;
    LastIsLast(s, c, i, |front|);
  }

  lemma CutAtLast(front: string, c: char, part: Option<string>)
    requires if part.None? then c !in front else c !in part.value
    ensures var s := front + Tail(c, part); var i := LastIndexOf(s, c);
      Before(s, i) == front && Behind(s, i) == OrEmpty(part)
  {
    hide LastIndexOf;
    var s := front + Tail(c, part);
    if part.None? {
      assert s == front;
    } else {
      LastAt(front, c, part.value);
      assert s == front + [c] + part.value;
      assert s[|front| + 1..] == part.value && s[..|front|] == front;
    }
  }

  lemma LastIsLast(s: string, c: char, i: nat, j: nat)
    requires i < |s| && s[i] == c && c !in s[i + 1..] && j < |s| && s[j] == c && c !in s[j + 1..]
    ensures i == j
  {
    if j < i {
      LiesBehind(s, j, i);
    } else if i < j {
      LiesBehind(s, i, j);
    }
  }

  lemma LiesBehind(s: string, i: nat, j: nat)
    requires i < j < |s|
    ensures s[j] in s[i + 1..]
  {
    assert s[i + 1..][j - i - 1] == s[j];
  }

  lemma CutAtFirst(front: string, c: char, part: Option<string>)
    requires c !in front
    ensures var s := front + Tail(c, part); var i := IndexOf(s, c);
      Before(s, i) == front && Behind(s, i) == OrEmpty(part)
  {
    var s := front + Tail(c, part);
    if part.None? {
      assert s == front;
    } else {
      IndexOfFirst(front, c, part.value);
      assert s == front + [c] + part.value;
      assert s[|front| + 1..] == part.value && s[..|front|] == front;
    }
  }

  /** Type, the segments behind it, and whatever of version, query and subpath there is. */
  function PathText(typ: string, front: seq<string>, last: string): string {
    typ + "/" + Join(front + [last], '/')
  }

  /** The separators: the last hash, the last question mark in front of it, the first at sign in front of that. */
  ghost predicate Separated(path: string, version: Option<string>, query: Option<string>, subpath: Option<string>) {
    && '@' !in path
    && (if query.None? then '?' !in path + Tail('@', version) else '?' !in query.value)
    && (if subpath.None? then '#' !in path + Tail('@', version) + Tail('?', query) else '#' !in subpath.value)
  }

  /** Every part is read as it stands, the type in lower case and the segments decoded; without a last segment nothing is read. */
  lemma ParsesParts(typ: string, front: seq<string>, last: string, version: Option<string>, query: Option<string>, subpath: Option<string>)
    requires '/' !in typ && (forall f :: f in front ==> '/' !in f) && '/' !in last
    requires Separated(PathText(typ, front, last), version, query, subpath)
    ensures Parse("pkg:" + PathText(typ, front, last) + Tail('@', version) + Tail('?', query) + Tail('#', subpath)) ==
      if last == "" then None
      else Some(Purl(Lower(typ), Join(DecodeAll(front), '/'), DecodeSegment(last), OrEmpty(version), OrEmpty(query), OrEmpty(subpath)))
  {
    var path := PathText(typ, front, last);
    var rest2 := path + Tail('@', version);
    var rest1 := rest2 + Tail('?', query);
    var rest0 := rest1 + Tail('#', subpath);
    var text := "pkg:" + path + Tail('@', version) + Tail('?', query) + Tail('#', subpath);
    hide PathText, Tail, LastIndexOf, IndexOf, ParsePath, Before, Behind;
    assert text == "pkg:" + rest0;
    assert text[|SCHEME|..] == rest0 && SCHEME <= text;
    CutAtLast(rest1, '#', subpath);
    CutAtLast(rest2, '?', query);
    CutAtFirst(path, '@', version);
    PathIsRead(typ, front, last, OrEmpty(version), OrEmpty(query), OrEmpty(subpath));
  }

  lemma PathIsRead(typ: string, front: seq<string>, last: string, version: string, query: string, subpath: string)
    requires '/' !in typ && (forall f :: f in front ==> '/' !in f) && '/' !in last
    ensures ParsePath(PathText(typ, front, last), version, query, subpath) ==
      if last == "" then None
      else Some(Purl(Lower(typ), Join(DecodeAll(front), '/'), DecodeSegment(last), version, query, subpath))
  {
    var body, segments := Join(front + [last], '/'), front + [last];
    var path := PathText(typ, front, last);
    assert path == typ + ['/'] + body;
    IndexOfFirst(typ, '/', body);
    SplitJoin(segments, '/');
    hide IndexOf, Split, Join, DecodeAll, DecodeSegment, Lower;
    assert path[|typ| + 1..] == body && path[..|typ|] == typ;
    assert segments[..|segments| - 1] == front && segments[|segments| - 1] == last;
  }

  lemma NoSlashNoPurl(path: string, version: Option<string>, query: Option<string>, subpath: Option<string>)
    requires '/' !in path && Separated(path, version, query, subpath)
    ensures Parse("pkg:" + path + Tail('@', version) + Tail('?', query) + Tail('#', subpath)) == None
  {
    var rest2 := path + Tail('@', version);
    var rest1 := rest2 + Tail('?', query);
    var rest0 := rest1 + Tail('#', subpath);
    var text := "pkg:" + path + Tail('@', version) + Tail('?', query) + Tail('#', subpath);
    hide Tail, LastIndexOf, IndexOf, Before, Behind, Split;
    assert text == "pkg:" + rest0;
    assert text[|SCHEME|..] == rest0 && SCHEME <= text;
    CutAtLast(rest1, '#', subpath);
    CutAtLast(rest2, '?', query);
    CutAtFirst(path, '@', version);
  }

  // ----- Percent-decoding -----

  ghost predicate HexPair(h: char, l: char, value: nat) {
    exists a, b :: 0 <= a < 16 && 0 <= b < 16 && value == 16 * a + b && IsHexDigit(h, a) && IsHexDigit(l, b)
  }

  ghost predicate IsHexDigit(c: char, d: nat) {
    d < 16 && (c == "0123456789abcdef"[d] || c == "0123456789ABCDEF"[d])
  }

  lemma HexValueIff(c: char, d: nat)
    ensures HexValue(c) == Some(d) <==> IsHexDigit(c, d)
  {
    if d < 16 {
      assert d in {0, 1, 2, 3, 4, 5, 6, 7, 8, 9, 10, 11, 12, 13, 14, 15};
    }
  }

  lemma EscapeInFront(h: char, l: char, rest: string, value: nat)
    requires HexPair(h, l, value)
    ensures Unescape(['%', h, l] + rest) ==
      match Unescape(rest)
      case None => None
      case Some(decoded) => Some([value as char] + decoded)
  {
    var a, b :| 0 <= a < 16 && 0 <= b < 16 && value == 16 * a + b && IsHexDigit(h, a) && IsHexDigit(l, b);
    HexValueIff(h, a);
    HexValueIff(l, b);
    hide HexValue, IsHexDigit;
    var s := ['%', h, l] + rest;
    assert s[3..] == rest;
  }

  lemma PlainInFront(c: char, rest: string)
    requires c != '%'
    ensures Unescape([c] + rest) ==
      match Unescape(rest)
      case None => None
      case Some(decoded) => Some([c] + decoded)
  {
    assert ([c] + rest)[1..] == rest;
  }

  /** The first escape of a text, and what comes behind it. */
  lemma {:induction false} FirstEscape(before: string, h: char, l: char, rest: string, value: nat)
    requires '%' !in before && HexPair(h, l, value)
    ensures Unescape(before + ['%', h, l] + rest) ==
      match Unescape(rest)
      case None => None
      case Some(decoded) => Some(before + [value as char] + decoded)
  {
    if before == "" {
      EscapeInFront(h, l, rest, value);
      assert before + ['%', h, l] + rest == ['%', h, l] + rest;
      assert before + [value as char] == [value as char];
    } else {
      FirstEscape(before[1..], h, l, rest, value);
      PlainInFront(before[0], before[1..] + ['%', h, l] + rest);
      hide Unescape, HexPair;
      assert before + ['%', h, l] + rest == [before[0]] + (before[1..] + ['%', h, l] + rest);
      if Unescape(rest).Some? {
        var decoded := Unescape(rest).value;
        assert [before[0]] + (before[1..] + [value as char] + decoded) == before + [value as char] + decoded;
      }
    }
  }

  /** A percent sign without two hexadecimal digits behind it leaves the whole segment as it is. */
  lemma BadEscape(before: string, rest: string)
    requires '%' !in before && (|rest| < 2 || forall value :: !HexPair(rest[0], rest[1], value))
    ensures DecodeSegment(before + "%" + rest) == before + "%" + rest
  {
    BadEscapeFails(before, rest);
  }

  lemma {:induction false} BadEscapeFails(before: string, rest: string)
    requires '%' !in before && (|rest| < 2 || forall value :: !HexPair(rest[0], rest[1], value))
    ensures Unescape(before + "%" + rest) == None
  {
    var s := before + "%" + rest;
    if before == "" {
      if |rest| >= 2 && HexValue(rest[0]).Some? && HexValue(rest[1]).Some? {
        var a, b := HexValue(rest[0]).value, HexValue(rest[1]).value;
        HexValueIff(rest[0], a);
        HexValueIff(rest[1], b);
        assert HexPair(rest[0], rest[1], 16 * a + b);
      }
    } else {
      BadEscapeFails(before[1..], rest);
      assert s[1..] == before[1..] + "%" + rest;
    }
  }
}
