/**
 * Locating the raw track list inside the embed page's JSON payload: first at
 * the fixed key path, and, when a key on that path is missing, by the nested
 * depth-first search for a title/subtitle shape.
 */
module TrackSearch {
  import opened Wrappers
  import opened JsonValue

  /** An object carrying both a `title` and a `subtitle` key. */
  predicate IsTrack(v: Json) {
    v.JObj? && HasKey(v.fields, "title") && HasKey(v.fields, "subtitle")
  }

  // ---------------------------------------------------------------------
  // The depth-first search
  // ---------------------------------------------------------------------

  /**
   * The nested `dfs`: a track object is reported as a one-element list, an
   * array whose element 0 is a track object is reported whole, and otherwise
   * object values and array elements are searched left to right.
   * `None` stands for Python's `None`; a reported list is never empty, so
   * Python's `if r:` is the same test as `r.Some?`.
   */
  function Search(v: Json): (r: Option<seq<Json>>)
    ensures r.Some? ==> |r.value| > 0 && IsTrack(r.value[0])
    decreases v, 1
  {
    match v
    case JObj(fields) => if IsTrack(v) then Some([v]) else SearchFields(fields)
    case JArr(items) =>
      if |items| > 0 && IsTrack(items[0]) then Some(items) else SearchItems(items)
    case _ => None
  }

  function SearchItems(items: seq<Json>): (r: Option<seq<Json>>)
    ensures r.Some? ==> |r.value| > 0 && IsTrack(r.value[0])
    decreases items, 0
  {
    if |items| == 0 then None
    else
      match Search(items[0])
      case Some(found) => Some(found)
      case None => SearchItems(items[1..])
  }

  function SearchFields(fields: seq<(string, Json)>): (r: Option<seq<Json>>)
    ensures r.Some? ==> |r.value| > 0 && IsTrack(r.value[0])
    decreases fields, 0
  {
    if |fields| == 0 then None
    else
      assert fields[0].1 < fields[0];
      match Search(fields[0].1)
      case Some(found) => Some(found)
      case None => SearchFields(fields[1..])
  }

  // ---------------------------------------------------------------------
  // Reference definition: the first match in pre-order
  // ---------------------------------------------------------------------

  /** Every node of the tree in pre-order: a node, then its children's subtrees left to right. */
  function Nodes(v: Json): (r: seq<Json>)
    ensures |r| > 0 && r[0] == v
    decreases v, 1
  {
    [v] + match v
          case JArr(items) => NodesItems(items)
          case JObj(fields) => NodesFields(fields)
          case _ => []
  }

  function NodesItems(items: seq<Json>): seq<Json>
    decreases items, 0
  {
    if |items| == 0 then [] else Nodes(items[0]) + NodesItems(items[1..])
  }

  function NodesFields(fields: seq<(string, Json)>): seq<Json>
    decreases fields, 0
  {
    if |fields| == 0 then []
    else
      assert fields[0].1 < fields[0];
      Nodes(fields[0].1) + NodesFields(fields[1..])
  }

  /** What the search reports when it stands on node `v`, before looking below it. */
  function MatchAt(v: Json): Option<seq<Json>> {
    match v
    case JObj(_) => if IsTrack(v) then Some([v]) else None
    case JArr(items) => if |items| > 0 && IsTrack(items[0]) then Some(items) else None
    case _ => None
  }

  /** The report of the first node in `nodes` at which something is reported. */
  function FirstMatch(nodes: seq<Json>): (r: Option<seq<Json>>)
    ensures r.None? <==> forall k :: 0 <= k < |nodes| ==> MatchAt(nodes[k]).None?
    ensures r.Some? ==> exists k :: 0 <= k < |nodes| && MatchAt(nodes[k]) == r
                                    && forall i :: 0 <= i < k ==> MatchAt(nodes[i]).None?
    decreases |nodes|
  {
    if |nodes| == 0 then None
    else if MatchAt(nodes[0]).Some? then MatchAt(nodes[0])
    else
      var r := FirstMatch(nodes[1..]);
      assert forall k :: 1 <= k < |nodes| ==> nodes[k] == nodes[1..][k - 1];
      if r.Some? then
        var k :| 0 <= k < |nodes[1..]| && MatchAt(nodes[1..][k]) == r
                 && forall i :: 0 <= i < k ==> MatchAt(nodes[1..][i]).None?;
        assert MatchAt(nodes[k + 1]) == r;
        r
      else
        r
  }

  lemma {:induction false} FirstMatchAppend(a: seq<Json>, b: seq<Json>)
    ensures FirstMatch(a + b) == if FirstMatch(a).Some? then FirstMatch(a) else FirstMatch(b)
    decreases |a|
  {
    if |a| == 0 {
      assert a + b == b;
    } else {
      assert (a + b)[1..] == a[1..] + b;
      FirstMatchAppend(a[1..], b);
    }
  }

  /** The nested search returns exactly the first report of a pre-order walk. */
  lemma {:induction false} SearchIsFirstPreorderMatch(v: Json)
    ensures Search(v) == FirstMatch(Nodes(v))
    decreases v, 1
  {
    match v
    case JArr(items) =>
      SearchItemsIsFirstMatch(items);
      FirstMatchAppend([v], NodesItems(items));
    case JObj(fields) =>
      SearchFieldsIsFirstMatch(fields);
      FirstMatchAppend([v], NodesFields(fields));
    case _ =>
  }

  lemma {:induction false} SearchItemsIsFirstMatch(items: seq<Json>)
    ensures SearchItems(items) == FirstMatch(NodesItems(items))
    decreases items, 0
  {
    if |items| > 0 {
      SearchIsFirstPreorderMatch(items[0]);
      SearchItemsIsFirstMatch(items[1..]);
      FirstMatchAppend(Nodes(items[0]), NodesItems(items[1..]));
    }
  }

  lemma {:induction false} SearchFieldsIsFirstMatch(fields: seq<(string, Json)>)
    ensures SearchFields(fields) == FirstMatch(NodesFields(fields))
    decreases fields, 0
  {
    if |fields| > 0 {
      assert fields[0].1 < fields[0];
      SearchIsFirstPreorderMatch(fields[0].1);
      SearchFieldsIsFirstMatch(fields[1..]);
      FirstMatchAppend(Nodes(fields[0].1), NodesFields(fields[1..]));
    }
  }

  // ---------------------------------------------------------------------
  // Completeness: the search fails only when there is nothing to find
  // ---------------------------------------------------------------------

  predicate NoTrack(nodes: seq<Json>) {
    forall k :: 0 <= k < |nodes| ==> !IsTrack(nodes[k])
  }

  lemma NoTrackAppend(a: seq<Json>, b: seq<Json>)
    ensures NoTrack(a + b) <==> NoTrack(a) && NoTrack(b)
  {
    if NoTrack(a) && NoTrack(b) {
      forall k | 0 <= k < |a + b| ensures !IsTrack((a + b)[k]) {
        if k >= |a| {
          assert (a + b)[k] == b[k - |a|];
        }
      }
    }
    if NoTrack(a + b) {
      forall k | 0 <= k < |a| ensures !IsTrack(a[k]) {
        assert (a + b)[k] == a[k];
      }
      forall k | 0 <= k < |b| ensures !IsTrack(b[k]) {
        assert (a + b)[k + |a|] == b[k];
      }
    }
  }

  /** The search returns `None` exactly when no node of the tree is a track object. */
  lemma {:induction false} SearchNoneIffNoTrack(v: Json)
    ensures Search(v).None? <==> NoTrack(Nodes(v))
    decreases v, 1
  {
    match v
    case JArr(items) =>
      SearchItemsNoneIffNoTrack(items);
      assert Nodes(v) == [v] + NodesItems(items);
      NoTrackAppend([v], NodesItems(items));
      if |items| > 0 && IsTrack(items[0]) {
        assert NodesItems(items) == Nodes(items[0]) + NodesItems(items[1..]);
        assert Nodes(v)[1] == items[0];
      }
    case JObj(fields) =>
      SearchFieldsNoneIffNoTrack(fields);
      NoTrackAppend([v], NodesFields(fields));
    case _ =>
  }

  lemma {:induction false} SearchItemsNoneIffNoTrack(items: seq<Json>)
    ensures SearchItems(items).None? <==> NoTrack(NodesItems(items))
    decreases items, 0
  {
    if |items| > 0 {
      SearchNoneIffNoTrack(items[0]);
      SearchItemsNoneIffNoTrack(items[1..]);
      NoTrackAppend(Nodes(items[0]), NodesItems(items[1..]));
    }
  }

  lemma {:induction false} SearchFieldsNoneIffNoTrack(fields: seq<(string, Json)>)
    ensures SearchFields(fields).None? <==> NoTrack(NodesFields(fields))
    decreases fields, 0
  {
    if |fields| > 0 {
      assert fields[0].1 < fields[0];
      SearchNoneIffNoTrack(fields[0].1);
      SearchFieldsNoneIffNoTrack(fields[1..]);
      NoTrackAppend(Nodes(fields[0].1), NodesFields(fields[1..]));
    }
  }

  // ---------------------------------------------------------------------
  // The fixed key path and the fallback
  // ---------------------------------------------------------------------

  /**
   * The keys the program subscripts in turn, from the top of the payload down
   * to the playlist's track list.
   */
  const TrackListPath: seq<string> := ["props", "pageProps", "state", "data", "entity", "trackList"]

  /**
   * Subscripting along a key path: a dict without the key raises KeyError,
   * and anything that is not a dict raises TypeError.
   */
  datatype Lookup = Found(value: Json) | MissingKey | NotSubscriptable

  function Walk(v: Json, path: seq<string>): Lookup
    decreases |path|
  {
    if |path| == 0 then Found(v)
    else
      match v
      case JObj(fields) =>
        (match Get(fields, path[0])
         case Some(child) => Walk(child, path[1..])
         case None => MissingKey)
      case _ => NotSubscriptable
  }

  /** A TypeError on the fixed key path is not caught and ends the extraction. */
  datatype LookupError = SubscriptTypeError

  /**
   * `track_list_raw`: the value at the fixed key path; on a KeyError the
   * search result (a Python list, here an array), or `None` when the search
   * found nothing.
   */
  function TrackListRaw(data: Json): (r: Result<Json, LookupError>)
    ensures r.Failure? <==> Walk(data, TrackListPath) == NotSubscriptable
    ensures Walk(data, TrackListPath).Found? ==> r == Success(Walk(data, TrackListPath).value)
    ensures Walk(data, TrackListPath) == MissingKey ==>
              (r == Success(JNull) <==> NoTrack(Nodes(data)))
    ensures Walk(data, TrackListPath) == MissingKey && Search(data).Some? ==>
              r == Success(JArr(Search(data).value))
  {
    match Walk(data, TrackListPath)
    case Found(v) => Success(v)
    case NotSubscriptable => Failure(SubscriptTypeError)
    case MissingKey =>
      SearchNoneIffNoTrack(data);
      SearchIsFirstPreorderMatch(data);
      match Search(data)
      case Some(found) => Success(JArr(found))
      case None => Success(JNull)
  }
}
