/**
 * `extract_playlist_id`: accepts either a bare playlist id or a playlist URL.
 * URL parsing itself is not modelled: the caller supplies the path component
 * of the URL, or `None` when parsing the URL raised.
 */
module PlaylistId {
  import opened Wrappers
  import opened Text

  /** The ValueError raised when no id can be recovered. */
  datatype IdError = CouldNotExtract

  predicate IsAsciiAlnum(c: char) {
    ('A' <= c <= 'Z') || ('a' <= c <= 'z') || ('0' <= c <= '9')
  }

  /** The input fully matches `[A-Za-z0-9]+`. */
  predicate IsRawId(s: string) {
    |s| > 0 && forall k :: 0 <= k < |s| ==> IsAsciiAlnum(s[k])
  }

  predicate IsSlash(c: char) {
    c == '/'
  }

  /**
   * The id read off a URL path: strip `/` from both ends, split on `/`, and
   * take the second piece when the first is `playlist`.
   */
  function IdFromPath(path: string): Option<string> {
    var parts := Split(Trim(path, IsSlash), '/');
    if |parts| >= 2 && parts[0] == "playlist" then Some(parts[1]) else None
  }

  /** `extract_playlist_id(url_or_id)`, where `urlPath` is the parsed URL's path. */
  function ExtractPlaylistId(urlOrId: string, urlPath: Option<string>): (r: Result<string, IdError>)
    ensures IsRawId(urlOrId) ==> r == Success(urlOrId)
    ensures !IsRawId(urlOrId) && urlPath.None? ==> r == Failure(CouldNotExtract)
    ensures r.Success? ==> '/' !in r.value
  {
    if IsRawId(urlOrId) then
      Success(urlOrId)
    else
      match urlPath
      case None => Failure(CouldNotExtract)
      case Some(path) =>
        match IdFromPath(path)
        case Some(id) => Success(id)
        case None => Failure(CouldNotExtract)
  }

  /**
   * An independent reading of the same rule: after stripping slashes the path
   * must begin with `playlist/`, and the id is everything up to the next `/`.
   */
  function IdAfterPrefix(path: string): Option<string> {
    var t := Trim(path, IsSlash);
    if |t| >= 9 && t[..9] == "playlist/" then Some(TakeUntil(t[9..], '/')) else None
  }

  /** A string starting with `playlist/` splits into `playlist` and the id after it. */
  lemma SplitAfterPrefix(t: string)
    requires |t| >= 9 && t[..9] == "playlist/"
    ensures |Split(t, '/')| >= 2 && Split(t, '/')[0] == "playlist"
    ensures Split(t, '/')[1] == TakeUntil(t[9..], '/')
  {
    assert t == "playlist" + ['/'] + t[9..];
    TakeUntilBefore("playlist", '/', t[9..]);
    assert t[8] == '/';
    SplitHead(t, '/');
    SplitHead(t[9..], '/');
  }

  /** Conversely, a split whose first piece is `playlist` came from such a string. */
  lemma PrefixFromSplit(t: string)
    requires |Split(t, '/')| >= 2 && Split(t, '/')[0] == "playlist"
    ensures |t| >= 9 && t[..9] == "playlist/"
  {
    SplitHead(t, '/');
    var head := TakeUntil(t, '/');
    assert head == t[..8];
    assert t[..9] == t[..8] + [t[8]];
  }

  lemma IdFromPathIsPrefixRule(path: string)
    ensures IdFromPath(path) == IdAfterPrefix(path)
  {
    var t := Trim(path, IsSlash);
    if |t| >= 9 && t[..9] == "playlist/" {
      SplitAfterPrefix(t);
    } else if |Split(t, '/')| >= 2 && Split(t, '/')[0] == "playlist" {
      PrefixFromSplit(t);
    }
  }

  /** For a URL, success happens exactly when the stripped path starts with `playlist/`. */
  lemma ExtractFromUrl(urlOrId: string, path: string)
    requires !IsRawId(urlOrId)
    ensures ExtractPlaylistId(urlOrId, Some(path)).Success?
            <==> (var t := Trim(path, IsSlash); |t| >= 9 && t[..9] == "playlist/")
    ensures ExtractPlaylistId(urlOrId, Some(path)).Success? ==>
              ExtractPlaylistId(urlOrId, Some(path)).value
                == TakeUntil(Trim(path, IsSlash)[9..], '/')
  {
    IdFromPathIsPrefixRule(path);
  }

  /**
   * A URL whose path is `/playlist/<id>`, possibly followed by `/` and more,
   * yields `<id>` back.
   */
  lemma PlaylistUrlRoundTrip(urlOrId: string, id: string, tail: string)
    requires !IsRawId(urlOrId)
    requires |id| > 0 && '/' !in id
    requires |tail| == 0 || tail[0] == '/'
    ensures ExtractPlaylistId(urlOrId, Some("/playlist/" + id + tail)) == Success(id)
  {
    PlaylistPathRoundTrip(id, tail);
  }

  lemma PlaylistPathRoundTrip(id: string, tail: string)
    requires |id| > 0 && '/' !in id
    requires |tail| == 0 || tail[0] == '/'
    ensures IdFromPath("/playlist/" + id + tail) == Some(id)
  {
    var rest := StrippedPlaylistPath(id, tail);
    PrefixParts(Trim("/playlist/" + id + tail, IsSlash), id, rest);
    IdOfStrippedPath("/playlist/" + id + tail, id, rest);
  }

  lemma PrefixParts(t: string, id: string, rest: string)
    requires t == "playlist/" + id + rest
    ensures |t| >= 9 && t[..9] == "playlist/" && t[9..] == id + rest
  {
  }

  lemma IdOfStrippedPath(path: string, id: string, rest: string)
    requires '/' !in id
    requires |rest| == 0 || rest[0] == '/'
    requires var t := Trim(path, IsSlash); |t| >= 9 && t[..9] == "playlist/" && t[9..] == id + rest
    ensures IdFromPath(path) == Some(id)
  {
    TakeUntilPrefix(id, rest);
    IdFromPathIsPrefixRule(path);
  }

  /** Stripping the slashes of `/playlist/<id><tail>` keeps `playlist/<id>` in front. */
  lemma StrippedPlaylistPath(id: string, tail: string) returns (rest: string)
    requires |id| > 0 && '/' !in id
    requires |tail| == 0 || tail[0] == '/'
    ensures Trim("/playlist/" + id + tail, IsSlash) == "playlist/" + id + rest
    ensures |rest| == 0 || rest[0] == '/'
  {
    var a := "playlist/" + id;
    assert a[0] == 'p' && a[|a| - 1] == id[|id| - 1];
    assert "/playlist/" + id + tail == ['/'] + (a + tail);
    rest := StripOneSlash(a, tail);
  }

  /** One leading slash goes; a tail starting with a slash is cut back to some suffix that still does. */
  lemma StripOneSlash(a: string, tail: string) returns (rest: string)
    requires |a| > 0 && !IsSlash(a[0]) && !IsSlash(a[|a| - 1])
    requires |tail| == 0 || tail[0] == '/'
    ensures Trim(['/'] + (a + tail), IsSlash) == a + rest
    ensures |rest| == 0 || rest[0] == '/'
  {
    var m := a + tail;
    assert m[0] == a[0] && a <= m;
    TrimStartKeeps(m, IsSlash);
    TrimStartCons('/', m, IsSlash);
    var t := TrimEnd(m, IsSlash);
    TrimEndKeepsPrefix(m, IsSlash, a);
    rest := t[|a|..];
    PrefixRest(a, t);
    if |rest| > 0 {
      assert rest[0] == t[|a|] == m[|a|] == tail[0];
    }
  }

  lemma PrefixRest(a: string, t: string)
    requires a <= t
    ensures t == a + t[|a|..]
  {
  }

  lemma {:induction false} TakeUntilPrefix(a: string, b: string)
    requires '/' !in a
    requires |b| == 0 || b[0] == '/'
    ensures TakeUntil(a + b, '/') == a
    decreases |a|
  {
    if |a| > 0 {
      assert (a + b)[1..] == a[1..] + b;
      TakeUntilPrefix(a[1..], b);
    } else {
      assert a + b == b;
    }
  }

  /** The piece after `playlist` may be empty: `/playlist//x` yields the empty id. */
  lemma EmptySegmentIsReturned(urlOrId: string)
    requires !IsRawId(urlOrId)
    ensures ExtractPlaylistId(urlOrId, Some("/playlist//x")) == Success("")
  {
    var p := "/playlist//x";
    assert TrimStart(p, IsSlash) == p[1..];
    assert TrimEnd(p[1..], IsSlash) == p[1..];
    PrefixParts(p[1..], "", "/x");
    IdOfStrippedPath(p, "", "/x");
  }

  /** The empty string and a path of slashes alone are never accepted. */
  lemma EmptyInputFails(slashes: string)
    requires forall k :: 0 <= k < |slashes| ==> slashes[k] == '/'
    ensures ExtractPlaylistId("", Some(slashes)).Failure?
  {
    IdFromPathIsPrefixRule(slashes);
  }
}
