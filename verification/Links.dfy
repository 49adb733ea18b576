/** Links into a personal instance of an app: how the View's items are rewritten, and how the
    router takes such a link apart again. */
module Links {
  import opened Wrappers
  import opened Paths

  /** What `.` does not match in a regular expression. */
  predicate IsLineBreak(c: char) {
    c == '\n' || c == '\r' || c == '\U{2028}' || c == '\U{2029}'
  }

  predicate OneLine(s: string) {
    forall i :: 0 <= i < |s| ==> !IsLineBreak(s[i])
  }

  /** `renderItem`: an item's route with `/u/<ref>` put in behind the namespace, when there is
      a namespace and a user and the route starts with the namespace. */
  function Href(route: string, routeNamespace: string, userRef: string): string {
    if routeNamespace != "" && userRef != "" && routeNamespace <= route
    then routeNamespace + "/u/" + userRef + route[|routeNamespace|..]
    else route
  }

  datatype UserRoute = UserRoute(ref: string, userSubPath: string)

  /** A first segment of at least one character and the optional rest, as in
      `^<lead>([^/]+)(\/.*)?$`: the segment runs up to the first slash, and what follows has
      to stay on one line. */
  function SegmentAndRest(s: string): Option<UserRoute> {
    var i := IndexOf(s, '/');
    if i == 0 || !OneLine(s[i..]) then None
    else Some(UserRoute(s[..i], if i == |s| then "/" else s[i..]))
  }

  /** `parseMultiUserSubPath`: the spelled-out `/u/<ref>` form first, then a bare key. */
  function ParseUserSubPath(subPath: string, looksLikePubkey: string -> bool): Option<UserRoute> {
    var explicit := if "/u/" <= subPath then SegmentAndRest(subPath[3..]) else None;
    if explicit.Some? then explicit
    else if "/" <= subPath then
      var bare := SegmentAndRest(subPath[1..]);
      if bare.Some? && looksLikePubkey(bare.value.ref) then bare else None
    else None
  }

  /** Following a link: split it, parse the user part, and resolve the rest under the
      namespace of the prefix, as `renderMultiUserRoute` does. */
  function Follow(href: string, looksLikePubkey: string -> bool): Option<(string, string)> {
    var (prefix, subPath) := SplitPath(href);
    match ParseUserSubPath(subPath, looksLikePubkey)
    case None => None
    case Some(user) => Some((user.ref, "/" + prefix + user.userSubPath))
  }

  /** Reading `/u/` + text + rest where the text has no slash: the reference runs on to the
      first slash of the rest. */
  lemma ParseSpelledOut(ref: string, rest: string, looksLikePubkey: string -> bool)
    requires ref != "" && '/' !in ref
    ensures var j := IndexOf(rest, '/');
      ParseUserSubPath("/u/" + ref + rest, looksLikePubkey) ==
        if OneLine(rest[j..]) then Some(UserRoute(ref + rest[..j], if j == |rest| then "/" else rest[j..])) else None
  {
    var subPath := "/u/" + ref + rest;
    var j := IndexOf(rest, '/');
    SegmentStopsAtSlash(ref, rest);
    assert subPath == "/u/" + (ref + rest);
    assert subPath[3..] == ref + rest;
    if !OneLine(rest[j..]) {
      BareFormFails(ref, rest, j);
    }
  }

  lemma SegmentStopsAtSlash(ref: string, rest: string)
    requires ref != "" && '/' !in ref
    ensures var j := IndexOf(rest, '/');
      SegmentAndRest(ref + rest) ==
        if OneLine(rest[j..]) then Some(UserRoute(ref + rest[..j], if j == |rest| then "/" else rest[j..])) else None
  {
    var j := IndexOf(rest, '/');
    var s, i := ref + rest, |ref| + j;
    IndexOfAppend(ref, rest, '/');
    assert IndexOf(s, '/') == i && i != 0;
    var head, tail := s[..i], s[i..];
    assert head == ref + rest[..j] && tail == rest[j..] by {
      SliceOfAppend(ref, rest, j);
    }
  }

  lemma SliceOfAppend(s: string, t: string, j: nat)
    requires j <= |t|
    ensures (s + t)[..|s| + j] == s + t[..j] && (s + t)[|s| + j..] == t[j..]
  {
  }

  /** A bare key, without `/u/` in front: read as that key exactly when it looks like one and what
      follows is one line. */
  lemma ParseBare(ref: string, rest: string, looksLikePubkey: string -> bool)
    requires ref != "" && '/' !in ref && (rest == "" || "/" <= rest) && !("/u/" <= "/" + ref + rest)
    ensures ParseUserSubPath("/" + ref + rest, looksLikePubkey)
      == if OneLine(rest) && looksLikePubkey(ref) then Some(UserRoute(ref, if rest == "" then "/" else rest)) else None
  {
    IndexOfAppend(ref, rest, '/');
    assert ("/" + ref + rest)[1..] == ref + rest;
    assert IndexOf(rest, '/') == 0 || rest == "";
    assert (ref + rest)[..|ref|] == ref && (ref + rest)[|ref|..] == rest;
  }

  /** Without a namespace or a user, and outside the namespace, a link stays as it is. */
  lemma OtherLinksStay(route: string, routeNamespace: string, userRef: string)
    requires routeNamespace == "" || userRef == "" || !(routeNamespace <= route)
    ensures Href(route, routeNamespace, userRef) == route
  {
  }

  /** The bare form does not match either: its segment would be "u", and the rest still holds
      the line break. */
  lemma BareFormFails(ref: string, rest: string, j: nat)
    requires j <= |rest| && !OneLine(rest[j..])
    ensures SegmentAndRest(("/u/" + ref + rest)[1..]) == None
  {
    var bare := ("/u/" + ref + rest)[1..];
    assert bare == "u" + ("/" + ref + rest);
    IndexOfAppend("u", "/" + ref + rest, '/');
    assert IndexOf("/" + ref + rest, '/') == 0;
    var k :| 0 <= k < |rest[j..]| && IsLineBreak(rest[j..][k]);
    assert bare[1..][1 + |ref| + j + k] == rest[j..][k];
  }

  /** For every route of the namespace: following its rewritten link reaches the same person
      and the same stored route exactly when what follows the namespace starts with a slash
      and holds no line break. */
  lemma RewrittenLinkExactly(p: string, rest: string, ref: string, looksLikePubkey: string -> bool)
    requires p != "" && '/' !in p && ref != "" && '/' !in ref
    ensures Follow(Href("/" + p + rest, "/" + p, ref), looksLikePubkey) == Some((ref, "/" + p + rest))
      <==> "/" <= rest && OneLine(rest)
  {
    var namespace := "/" + p;
    var tail := "/u/" + ref + rest;
    var j := IndexOf(rest, '/');
    assert (namespace + rest)[|namespace|..] == rest;
    assert Href(namespace + rest, namespace, ref) == namespace + tail;
    SplitOfNamespace(p, tail);
    ParseSpelledOut(ref, rest, looksLikePubkey);
    if "/" <= rest {
      assert j == 0 && ref + rest[..0] == ref && rest[0..] == rest;
    } else {
      DifferentLength(ref, rest[..j]);
      DifferentLength(namespace, rest);
    }
  }

  lemma DifferentLength(s: string, t: string)
    ensures s + t == s ==> t == ""
    ensures t == "" ==> s + "/" != s + t
  {
    assert |s + t| == |s| + |t|;
  }

  /** `pushAggregateIndexEntry`: the entry's route has the owner baked in already. */
  function AggregateRoute(prefix: string, ownerRef: string, personalRoute: string): string
    requires |prefix| + 1 <= |personalRoute|
  {
    "/" + prefix + "/u/" + ownerRef + personalRoute[|prefix| + 1..]
  }

  /** It is the same link for every route under the prefix, whatever the template of the post
      routes; so following an entry reaches the owner's post under the same condition. */
  lemma AggregateIsHref(prefix: string, ownerRef: string, rest: string, looksLikePubkey: string -> bool)
    requires prefix != "" && '/' !in prefix && ownerRef != "" && '/' !in ownerRef
    ensures var post := "/" + prefix + rest;
      && AggregateRoute(prefix, ownerRef, post) == Href(post, "/" + prefix, ownerRef)
      && (Follow(AggregateRoute(prefix, ownerRef, post), looksLikePubkey) == Some((ownerRef, post))
          <==> "/" <= rest && OneLine(rest))
  {
    var post := "/" + prefix + rest;
    assert post[|prefix| + 1..] == rest;
    RewrittenLinkExactly(prefix, rest, ownerRef, looksLikePubkey);
  }
}
