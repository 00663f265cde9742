/**
 * From the payload to the list of `"subtitle - title"` search queries: the
 * raw track list is located, checked for truthiness and formatted entry by
 * entry.
 */
module TrackList {
  import opened Wrappers
  import opened JsonValue
  import opened TrackSearch

  /** The exceptions that end the extraction. */
  datatype TrackError =
    | PathNotSubscriptable  // TypeError while subscripting the fixed key path
    | TrackListNotFound     // RuntimeError: the raw track list is falsy
    | EntryHasNoGet         // AttributeError: an entry is not a dict
    | NotIterable           // TypeError: the raw track list is a number or `True`

  /** `t.get(key)` on a dict: the stored value, or `None` when the key is absent. */
  function Field(t: Json, key: string): Json {
    if t.JObj? then
      match Get(t.fields, key)
      case Some(v) => v
      case None => JNull
    else JNull
  }

  /** An entry is kept when both its title and its subtitle are truthy. */
  predicate Keeps(t: Json) {
    t.JObj? && Truthy(Field(t, "title")) && Truthy(Field(t, "subtitle"))
  }

  /** The search query of an entry: its subtitle (the artists), a spaced dash, its title. */
  function Line(t: Json): string {
    Str(Field(t, "subtitle")) + " - " + Str(Field(t, "title"))
  }

  /** The lines of the kept entries, in order. */
  function KeepMap<T>(xs: seq<T>, keep: T -> bool, line: T -> string): (r: seq<string>)
    ensures |r| <= |xs|
    decreases |xs|
  {
    if |xs| == 0 then []
    else (if keep(xs[0]) then [line(xs[0])] else []) + KeepMap(xs[1..], keep, line)
  }

  lemma {:induction false} KeepMapSnoc<T>(xs: seq<T>, x: T, keep: T -> bool, line: T -> string)
    ensures KeepMap(xs + [x], keep, line)
            == KeepMap(xs, keep, line) + (if keep(x) then [line(x)] else [])
    decreases |xs|
  {
    if |xs| == 0 {
      assert xs + [x] == [x];
      assert [x][1..] == [];
    } else {
      var own := if keep(xs[0]) then [line(xs[0])] else [];
      var last := if keep(x) then [line(x)] else [];
      assert KeepMap(xs + [x], keep, line) == own + KeepMap(xs[1..] + [x], keep, line) by {
        assert (xs + [x])[0] == xs[0];
        assert (xs + [x])[1..] == xs[1..] + [x];
      }
      KeepMapSnoc(xs[1..], x, keep, line);
      assert KeepMap(xs, keep, line) == own + KeepMap(xs[1..], keep, line);
      assert own + (KeepMap(xs[1..], keep, line) + last) == (own + KeepMap(xs[1..], keep, line)) + last;
    }
  }

  predicate Increasing(idx: seq<nat>) {
    forall a, b :: 0 <= a < b < |idx| ==> idx[a] < idx[b]
  }

  /** Every position moved one place to the right. */
  function Shift(idx: seq<nat>): (r: seq<nat>)
    ensures |r| == |idx| && forall k :: 0 <= k < |idx| ==> r[k] == idx[k] + 1
  {
    seq(|idx|, k requires 0 <= k < |idx| => idx[k] + 1)
  }

  lemma ShiftIncreasing(idx: seq<nat>, withZero: bool)
    requires Increasing(idx)
    ensures Increasing(if withZero then [0] + Shift(idx) else Shift(idx))
  {
    if withZero {
      var s := Shift(idx);
      var z := [0] + s;
      forall a, b | 0 <= a < b < |z| ensures z[a] < z[b] {
        if a > 0 {
          assert z[a] == s[a - 1] && z[b] == s[b - 1];
        } else {
          assert z[b] == s[b - 1];
        }
      }
    }
  }

  lemma ShiftMember(idx: seq<nat>, j: nat)
    requires j in idx
    ensures j + 1 in Shift(idx)
  {
    var k :| 0 <= k < |idx| && idx[k] == j;
    assert Shift(idx)[k] == j + 1;
  }

  /**
   * `idx` lists, in increasing order, the positions of `xs` that `out` was
   * taken from: each output is the line of a kept element at its position.
   */
  predicate Picks<T>(xs: seq<T>, keep: T -> bool, line: T -> string, idx: seq<nat>, out: seq<string>) {
    && |idx| == |out| && Increasing(idx)
    && (forall k :: 0 <= k < |idx| ==> idx[k] < |xs| && keep(xs[idx[k]]) && out[k] == line(xs[idx[k]]))
  }

  /** Every kept position of `xs` is listed in `idx`. */
  predicate Covers<T>(xs: seq<T>, keep: T -> bool, idx: seq<nat>) {
    forall i :: 0 <= i < |xs| && keep(xs[i]) ==> i in idx
  }

  /** The kept elements, and only those, appear in their original order. */
  lemma {:induction false} KeepMapOrder<T>(xs: seq<T>, keep: T -> bool, line: T -> string)
    returns (idx: seq<nat>)
    ensures Picks(xs, keep, line, idx, KeepMap(xs, keep, line)) && Covers(xs, keep, idx)
    decreases |xs|
  {
    if |xs| == 0 {
      return [];
    }
    var tail := KeepMap(xs[1..], keep, line);
    var rest := KeepMapOrder(xs[1..], keep, line);
    ShiftPicks(xs, keep, line, rest, tail);
    ShiftCovers(xs, keep, rest);
    if keep(xs[0]) {
      idx := [0] + Shift(rest);
      ShiftIncreasing(rest, true);
      ConsPicks(xs, keep, line, Shift(rest), tail);
      assert KeepMap(xs, keep, line) == [line(xs[0])] + tail;
    } else {
      idx := Shift(rest);
      assert KeepMap(xs, keep, line) == tail;
    }
  }

  /** Positions found in the tail of `xs`, moved one place right, are positions in `xs`. */
  lemma ShiftPicks<T>(xs: seq<T>, keep: T -> bool, line: T -> string, rest: seq<nat>, tail: seq<string>)
    requires |xs| > 0 && Picks(xs[1..], keep, line, rest, tail)
    ensures Picks(xs, keep, line, Shift(rest), tail)
  {
    var shifted := Shift(rest);
    ShiftIncreasing(rest, false);
    forall k | 0 <= k < |shifted|
      ensures shifted[k] < |xs| && keep(xs[shifted[k]]) && tail[k] == line(xs[shifted[k]])
    {
      var j := rest[k];
      assert shifted[k] == j + 1;
      assert j < |xs[1..]| && keep(xs[1..][j]) && tail[k] == line(xs[1..][j]);
      assert xs[1..][j] == xs[j + 1];
    }
  }

  /** The shifted positions of the tail, with 0 when the first element is kept, cover `xs`. */
  lemma ShiftCovers<T>(xs: seq<T>, keep: T -> bool, rest: seq<nat>)
    requires |xs| > 0 && Covers(xs[1..], keep, rest)
    ensures Covers(xs, keep, if keep(xs[0]) then [0] + Shift(rest) else Shift(rest))
  {
    var idx := if keep(xs[0]) then [0] + Shift(rest) else Shift(rest);
    forall i | 0 <= i < |xs| && keep(xs[i]) ensures i in idx {
      if i > 0 {
        assert xs[1..][i - 1] == xs[i];
        ShiftMember(rest, i - 1);
      }
    }
  }

  /** Putting a kept first element in front of the picks of the rest. */
  lemma ConsPicks<T>(xs: seq<T>, keep: T -> bool, line: T -> string, shifted: seq<nat>, tail: seq<string>)
    requires |xs| > 0 && keep(xs[0])
    requires Picks(xs, keep, line, shifted, tail) && Increasing([0] + shifted)
    ensures Picks(xs, keep, line, [0] + shifted, [line(xs[0])] + tail)
  {
    var idx := [0] + shifted;
    var out := [line(xs[0])] + tail;
    forall k | 0 <= k < |idx|
      ensures idx[k] < |xs| && keep(xs[idx[k]]) && out[k] == line(xs[idx[k]])
    {
      if k > 0 {
        assert idx[k] == shifted[k - 1] && out[k] == tail[k - 1];
      }
    }
  }

  /** Every entry is a dict, so `t.get` can be called on it. */
  predicate AllObjects(raw: seq<Json>) {
    forall i :: 0 <= i < |raw| ==> raw[i].JObj?
  }

  /**
   * The formatting loop over the raw track list: an entry that is not a dict
   * raises AttributeError; otherwise the kept entries' lines, in order.
   */
  function Format(raw: seq<Json>): Result<seq<string>, TrackError> {
    if AllObjects(raw) then Success(KeepMap(raw, Keeps, Line)) else Failure(EntryHasNoGet)
  }

  /** The loop as written: entries are visited in order and lines appended. */
  method FormatTracks(raw: seq<Json>) returns (r: Result<seq<string>, TrackError>)
    ensures r == Format(raw)
  {
    var tracks: seq<string> := [];
    for i := 0 to |raw|
      invariant AllObjects(raw[..i])
      invariant tracks == KeepMap(raw[..i], Keeps, Line)
    {
      var t := raw[i];
      if !t.JObj? {
        return Failure(EntryHasNoGet);
      }
      assert raw[..i + 1] == raw[..i] + [t];
      KeepMapSnoc(raw[..i], t, Keeps, Line);
      var title := Field(t, "title");
      var subtitle := Field(t, "subtitle");
      assert Keeps(t) <==> Truthy(title) && Truthy(subtitle);
      assert Line(t) == Str(subtitle) + " - " + Str(title);
      if Truthy(title) && Truthy(subtitle) {
        tracks := tracks + [Str(subtitle) + " - " + Str(title)];
      }
    }
    assert raw[..|raw|] == raw;
    return Success(tracks);
  }

  /**
   * The formatted list never grows, keeps exactly the entries whose title and
   * subtitle are truthy, each as its `"subtitle - title"` line, in their
   * original order.
   */
  lemma FormatKeepsOrder(raw: seq<Json>, tracks: seq<string>) returns (idx: seq<nat>)
    requires Format(raw) == Success(tracks)
    ensures |tracks| <= |raw|
    ensures |idx| == |tracks| && Increasing(idx)
    ensures forall k :: 0 <= k < |idx| ==>
              idx[k] < |raw| && Keeps(raw[idx[k]]) && tracks[k] == Line(raw[idx[k]])
    ensures forall i :: 0 <= i < |raw| && Keeps(raw[i]) ==> i in idx
  {
    idx := KeepMapOrder(raw, Keeps, Line);
  }

  /**
   * A single entry: string fields give `"subtitle - title"`, and a missing or
   * empty title or subtitle drops the entry.
   */
  lemma FormatOneEntry(t: Json)
    requires t.JObj?
    ensures Get(t.fields, "title").Some? && Get(t.fields, "title").value.JStr?
            && Get(t.fields, "subtitle").Some? && Get(t.fields, "subtitle").value.JStr?
            && |Get(t.fields, "title").value.s| > 0 && |Get(t.fields, "subtitle").value.s| > 0
            ==> Format([t]) == Success([Get(t.fields, "subtitle").value.s + " - "
                                        + Get(t.fields, "title").value.s])
    ensures !HasKey(t.fields, "title") || !HasKey(t.fields, "subtitle")
            || Get(t.fields, "title") == Some(JStr("")) || Get(t.fields, "subtitle") == Some(JStr(""))
            ==> Format([t]) == Success([])
  {
    var own: seq<string> := if Keeps(t) then [Line(t)] else [];
    assert [t][1..] == [];
    assert KeepMap([t], Keeps, Line) == own + [];
    assert own + [] == own;
  }

  /** `login_and_open_private_playlist_get_tracks` after the payload has been parsed. */
  function Tracks(data: Json): (r: Result<seq<string>, TrackError>)
    ensures r.Failure? && r.error == PathNotSubscriptable
            <==> Walk(data, TrackListPath) == NotSubscriptable
    ensures r == Failure(TrackListNotFound)
            <==> TrackListRaw(data).Success? && !Truthy(TrackListRaw(data).value)
    ensures var raw := TrackListRaw(data);
            raw.Success? && Truthy(raw.value) && raw.value.JArr? ==> r == Format(raw.value.items)
    ensures r.Success? <==> var raw := TrackListRaw(data);
            raw.Success? && Truthy(raw.value) && raw.value.JArr? && AllObjects(raw.value.items)
    ensures r == Failure(EntryHasNoGet) <==> var raw := TrackListRaw(data);
            raw.Success? && Truthy(raw.value)
            && (raw.value.JObj? || raw.value.JStr? || (raw.value.JArr? && !AllObjects(raw.value.items)))
    ensures r == Failure(NotIterable) <==> var raw := TrackListRaw(data);
            raw.Success? && Truthy(raw.value) && (raw.value.JBool? || raw.value.JNum?)
  {
    match TrackListRaw(data)
    case Failure(_) => Failure(PathNotSubscriptable)
    case Success(raw) =>
      if !Truthy(raw) then Failure(TrackListNotFound)
      else
        match raw
        case JArr(items) => Format(items)
        case JObj(_) => Failure(EntryHasNoGet)  // iterating a dict yields its keys, which are strings
        case JStr(_) => Failure(EntryHasNoGet)  // iterating a string yields strings
        case _ => Failure(NotIterable)
  }

  /**
   * "Track list not found" is raised exactly when the fixed path holds a falsy
   * value, or a key on it is missing and no object anywhere in the payload has
   * both a title and a subtitle.
   */
  lemma TracksNotFoundIff(data: Json)
    ensures Tracks(data) == Failure(TrackListNotFound)
            <==> (Walk(data, TrackListPath).Found? && !Truthy(Walk(data, TrackListPath).value))
                 || (Walk(data, TrackListPath) == MissingKey && NoTrack(Nodes(data)))
  {
    if Walk(data, TrackListPath) == MissingKey {
      SearchNoneIffNoTrack(data);
    }
  }

  /**
   * When the fixed path is missing, the fallback's list is formatted; its
   * first entry is a track object, so it contributes a line whenever its
   * title and subtitle are truthy.
   */
  lemma FallbackFormatsFirstMatch(data: Json)
    requires Walk(data, TrackListPath) == MissingKey && Search(data).Some?
    ensures Tracks(data) == Format(Search(data).value)
    ensures Keeps(Search(data).value[0]) && Tracks(data).Success? ==>
              |Tracks(data).value| > 0 && Tracks(data).value[0] == Line(Search(data).value[0])
  {
  }
}
