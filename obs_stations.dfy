/**
  The station-id half of noaa_obs_station.py: every coordinate of every
  state is turned into an observation-station link by an outside lookup,
  the link is cut down to its last path segment, and each station id is
  recorded once across the whole output, under the first state that
  produced it.

  The HTTP lookup `get_noaa_obs_station(lat, lon)` followed by
  `response["features"][0]["id"]` is the parameter `link`, called with
  latitude first as the source does.
 */
module ObsStations {
  import opened Dedup
  import opened StateCoordinates

  // ---------------------------------------------------------------------
  // Station id of a link

  /** `s.rstrip("/")`. */
  function TrimTrailingSlashes(s: string): (r: string)
    ensures |r| <= |s| && r == s[..|r|]
    ensures forall i :: |r| <= i < |s| ==> s[i] == '/'
    ensures r == [] || r[|r| - 1] != '/'
    decreases |s|
  {
    if s != [] && s[|s| - 1] == '/' then TrimTrailingSlashes(s[..|s| - 1]) else s
  }

  /** `s.rsplit("/", 1)[-1]`: the text after the last '/', or all of `s` when it has none. */
  function AfterLastSlash(s: string): (r: string)
    ensures |r| <= |s| && r == s[|s| - |r|..]
    ensures '/' !in r
    ensures |r| < |s| ==> s[|s| - |r| - 1] == '/'
    decreases |s|
  {
    if s == [] || s[|s| - 1] == '/' then []
    else AfterLastSlash(s[..|s| - 1]) + [s[|s| - 1]]
  }

  /**
    `api_link.rstrip("/").rsplit("/", 1)[-1]`: the last segment of the link
    once its trailing slashes are gone. It holds no '/', it ends the trimmed
    link, and a '/' stands right before it unless it is the whole trimmed link.
   */
  function StationId(link: string): (id: string)
    ensures '/' !in id
    ensures var trimmed := TrimTrailingSlashes(link);
      && |id| <= |trimmed| && id == trimmed[|trimmed| - |id|..]
      && (|id| < |trimmed| ==> trimmed[|trimmed| - |id| - 1] == '/')
      && (trimmed == [] || trimmed[|trimmed| - 1] != '/')
  {
    AfterLastSlash(TrimTrailingSlashes(link))
  }

  function Slashes(k: nat): (r: string)
    ensures |r| == k && forall i :: 0 <= i < k ==> r[i] == '/'
  {
    seq(k, _ => '/')
  }

  /** Trailing slashes come off and nothing else does. */
  lemma {:induction false} TrimSlashesOf(s: string, k: nat)
    requires s == [] || s[|s| - 1] != '/'
    ensures TrimTrailingSlashes(s + Slashes(k)) == s
    decreases k
  {
    if k > 0 {
      assert (s + Slashes(k))[..|s + Slashes(k)| - 1] == s + Slashes(k - 1);
      TrimSlashesOf(s, k - 1);
    }
  }

  /** The segment after the last '/' is recovered whole. */
  lemma {:induction false} AfterLastSlashOf(prefix: string, segment: string)
    requires '/' !in segment
    ensures AfterLastSlash(prefix + "/" + segment) == segment
    decreases |segment|
  {
    if segment != [] {
      var init := segment[..|segment| - 1];
      assert (prefix + "/" + segment)[..|prefix + "/" + segment| - 1] == prefix + "/" + init;
      AfterLastSlashOf(prefix, init);
    }
  }

  /** A link `prefix/ID` with any number of trailing slashes yields `ID`, for a non-empty `ID` without '/'. */
  lemma StationIdOfLink(prefix: string, id: string, k: nat)
    requires id != [] && '/' !in id
    ensures StationId(prefix + "/" + id + Slashes(k)) == id
  {
    TrimSlashesOf(prefix + "/" + id, k);
    AfterLastSlashOf(prefix, id);
  }

  // ---------------------------------------------------------------------
  // The de-duplicating loop of `main`

  /** A station id found for a state. */
  datatype Sighting = Sighting(state: string, id: string)

  /** The loop's variables: `states_listed`, `weather_stations` and `station_ids`. */
  datatype Tally = Tally(listed: seq<string>, stations: map<string, seq<string>>, ids: seq<string>)

  /** The station ids the lookup gives for `coords`, in order. */
  function IdsOf<N>(coords: seq<Coord<N>>, link: (N, N) -> string): (r: seq<string>)
    ensures |r| == |coords|
  {
    seq(|coords|, i requires 0 <= i < |coords| => StationId(link(coords[i].lat, coords[i].lon)))
  }

  /** First visit of a state: list it and give it an empty list of stations. */
  function Visit(t: Tally, state: string): Tally {
    if state in t.listed then t else Tally(t.listed + [state], t.stations[state := []], t.ids)
  }

  /** One station id of `state`: appended to that state and to `ids` unless some state already has it. */
  function Record(t: Tally, state: string, id: string): Tally
    requires state in t.stations
  {
    if id in t.ids then t
    else Tally(t.listed, t.stations[state := t.stations[state] + [id]], t.ids + [id])
  }

  function RecordAll(t: Tally, state: string, ids: seq<string>): (r: Tally)
    requires state in t.stations
    ensures r.listed == t.listed && r.stations.Keys == t.stations.Keys
    decreases |ids|
  {
    if ids == [] then t
    else Record(RecordAll(t, state, ids[..|ids| - 1]), state, ids[|ids| - 1])
  }

  /** The states of `input`, an ordered state -> coordinates mapping. */
  function InputStates<N>(input: seq<(string, seq<Coord<N>>)>): set<string>
    decreases |input|
  {
    if input == [] then {} else InputStates(input[..|input| - 1]) + {input[|input| - 1].0}
  }

  /** The variables after the loop has run over `input`. */
  function Collect<N>(input: seq<(string, seq<Coord<N>>)>, link: (N, N) -> string): (r: Tally)
    ensures r.stations.Keys == InputStates(input)
    ensures forall s :: s in r.listed <==> s in r.stations
    decreases |input|
  {
    if input == [] then Tally([], map[], [])
    else
      var (state, coords) := input[|input| - 1];
      RecordAll(Visit(Collect(input[..|input| - 1], link), state), state, IdsOf(coords, link))
  }

  /** The (state, station id) pairs in the order the loop meets them. */
  function Stream<N>(input: seq<(string, seq<Coord<N>>)>, link: (N, N) -> string): seq<Sighting>
    decreases |input|
  {
    if input == [] then []
    else
      var (state, coords) := input[|input| - 1];
      Stream(input[..|input| - 1], link) + Block(state, IdsOf(coords, link))
  }

  function Block(state: string, ids: seq<string>): (r: seq<Sighting>)
    ensures |r| == |ids|
  {
    seq(|ids|, i requires 0 <= i < |ids| => Sighting(state, ids[i]))
  }

  function StreamIds(stream: seq<Sighting>): (r: seq<string>)
    ensures |r| == |stream|
  {
    seq(|stream|, i requires 0 <= i < |stream| => stream[i].id)
  }

  /** Each sighted station id -> the state of its first sighting. */
  function Owners(stream: seq<Sighting>): (o: map<string, string>)
    ensures forall x :: x in o <==> x in StreamIds(stream)
    decreases |stream|
  {
    if stream == [] then map[]
    else
      var prev := Owners(stream[..|stream| - 1]);
      var g := stream[|stream| - 1];
      assert StreamIds(stream) == StreamIds(stream[..|stream| - 1]) + [g.id];
      if g.id in prev then prev else prev[g.id := g.state]
  }

  /** `Owners` names the state of the first sighting. */
  lemma {:induction false} OwnersFirst(stream: seq<Sighting>, x: string)
    requires x in StreamIds(stream)
    ensures Owners(stream)[x] == stream[IndexOf(StreamIds(stream), x)].state
    decreases |stream|
  {
    var init, g := stream[..|stream| - 1], stream[|stream| - 1];
    assert StreamIds(stream) == StreamIds(init) + [g.id];
    if x in StreamIds(init) {
      OwnersFirst(init, x);
      IndexOfSnoc(StreamIds(init), g.id, x);
    } else {
      assert IndexOf(StreamIds(stream), x) == |init|;
    }
  }

  /** The ids of `ids` that `owner` gives to `state`, in the order of `ids`. */
  function Select(ids: seq<string>, owner: map<string, string>, state: string): (r: seq<string>)
    ensures forall i :: 0 <= i < |r| ==> r[i] in ids && r[i] in owner && owner[r[i]] == state
    decreases |ids|
  {
    if ids == [] then []
    else
      var prev := Select(ids[..|ids| - 1], owner, state);
      var x := ids[|ids| - 1];
      if x in owner && owner[x] == state then prev + [x] else prev
  }

  lemma {:induction false} SelectMembers(ids: seq<string>, owner: map<string, string>, state: string, x: string)
    ensures x in Select(ids, owner, state) <==> x in ids && x in owner && owner[x] == state
    decreases |ids|
  {
    if ids != [] {
      SelectMembers(ids[..|ids| - 1], owner, state, x);
      assert ids == ids[..|ids| - 1] + [ids[|ids| - 1]];
    }
  }

  /** Selection only reads the owners of the ids it looks at. */
  lemma {:induction false} SelectAgree(ids: seq<string>, o1: map<string, string>, o2: map<string, string>, state: string)
    requires forall i :: 0 <= i < |ids| ==> (ids[i] in o1 <==> ids[i] in o2)
    requires forall i :: 0 <= i < |ids| && ids[i] in o1 ==> o1[ids[i]] == o2[ids[i]]
    ensures Select(ids, o1, state) == Select(ids, o2, state)
    decreases |ids|
  {
    if ids != [] {
      SelectAgree(ids[..|ids| - 1], o1, o2, state);
    }
  }

  lemma {:induction false} SelectNoDup(ids: seq<string>, owner: map<string, string>, state: string)
    requires NoDup(ids)
    ensures NoDup(Select(ids, owner, state))
    decreases |ids|
  {
    if ids != [] {
      var init := ids[..|ids| - 1];
      assert NoDup(init);
      SelectNoDup(init, owner, state);
    }
  }

  /** A new id, owned by `state`, extends the selection of `state` and no other. */
  lemma SelectSnocNew(ids: seq<string>, owner: map<string, string>, state: string, id: string, s: string)
    requires id !in ids
    ensures Select(ids + [id], owner[id := state], s) == Select(ids, owner, s) + (if s == state then [id] else [])
  {
    var ids' := ids + [id];
    assert ids'[..|ids'| - 1] == ids;
    SelectAgree(ids, owner[id := state], owner, s);
  }

  /** A state that owns nothing selects nothing. */
  lemma {:induction false} SelectNone(ids: seq<string>, owner: map<string, string>, state: string)
    requires forall x :: x in owner ==> owner[x] != state
    ensures Select(ids, owner, state) == []
    decreases |ids|
  {
    if ids != [] {
      SelectNone(ids[..|ids| - 1], owner, state);
    }
  }

  /** Selection keeps the relative order of `ids`. */
  lemma {:induction false} SelectOrder(ids: seq<string>, owner: map<string, string>, state: string)
    requires NoDup(ids)
    ensures forall i, j :: 0 <= i < j < |Select(ids, owner, state)| ==>
      IndexOf(ids, Select(ids, owner, state)[i]) < IndexOf(ids, Select(ids, owner, state)[j])
    decreases |ids|
  {
    if ids != [] {
      var init, x := ids[..|ids| - 1], ids[|ids| - 1];
      assert ids == init + [x];
      assert NoDup(init);
      SelectOrder(init, owner, state);
      var prev, r := Select(init, owner, state), Select(ids, owner, state);
      assert forall i, j :: 0 <= i < j < |prev| ==> IndexOf(init, prev[i]) < IndexOf(init, prev[j]);
      assert x !in init;
      assert IndexOf(ids, x) == |init|;
      forall i, j | 0 <= i < j < |r| ensures IndexOf(ids, r[i]) < IndexOf(ids, r[j]) {
        assert r[i] == prev[i] && r[i] in init;
        IndexOfSnoc(init, x, r[i]);
        assert IndexOf(init, r[i]) < |init|;
        if j < |prev| {
          assert r[j] == prev[j] && r[j] in init;
          IndexOfSnoc(init, x, r[j]);
        } else {
          assert r[j] == x;
        }
      }
    }
  }

  /**
    What the tally says about the sightings met so far: `ids` is their
    distinct station ids in encounter order, every owner is a key, and each
    state's list is the ids it owns, in the order of `ids`.
   */
  ghost predicate Accounts(t: Tally, stream: seq<Sighting>) {
    var owners := Owners(stream);
    && t.ids == Distinct(StreamIds(stream))
    && (forall x :: x in owners ==> owners[x] in t.stations)
    && (forall s :: s in t.stations ==> t.stations[s] == Select(t.ids, owners, s))
  }

  /** One more sighting at the end of the stream: its id, its owner and the distinct ids. */
  lemma StreamSnoc(stream: seq<Sighting>, g: Sighting)
    ensures StreamIds(stream + [g]) == StreamIds(stream) + [g.id]
    ensures g.id in StreamIds(stream) ==>
      && Owners(stream + [g]) == Owners(stream)
      && Distinct(StreamIds(stream + [g])) == Distinct(StreamIds(stream))
    ensures g.id !in StreamIds(stream) ==>
      && Owners(stream + [g]) == Owners(stream)[g.id := g.state]
      && Distinct(StreamIds(stream + [g])) == Distinct(StreamIds(stream)) + [g.id]
  {
    var stream' := stream + [g];
    assert stream'[..|stream'| - 1] == stream;
    var seen := StreamIds(stream);
    assert StreamIds(stream') == seen + [g.id];
    assert (seen + [g.id])[..|seen|] == seen;
  }

  /** A sighting of an id some state already has changes nothing. */
  lemma RecordSeenAccounts(t: Tally, stream: seq<Sighting>, state: string, id: string)
    requires state in t.stations && Accounts(t, stream) && id in t.ids
    ensures Accounts(t, stream + [Sighting(state, id)])
  {
    StreamSnoc(stream, Sighting(state, id));
  }

  /** A first sighting puts its id at the end of the distinct ids. */
  lemma NewIdAppended(ids: seq<string>, stream: seq<Sighting>, state: string, id: string)
    requires ids == Distinct(StreamIds(stream)) && id !in ids
    ensures id !in Owners(stream)
    ensures ids + [id] == Distinct(StreamIds(stream + [Sighting(state, id)]))
    ensures Owners(stream + [Sighting(state, id)]) == Owners(stream)[id := state]
  {
    StreamSnoc(stream, Sighting(state, id));
  }

  /** Giving a new id to `state` appends it to that state's list and leaves every other list as it was. */
  lemma NewIdSelected(stations: map<string, seq<string>>, ids: seq<string>, owner: map<string, string>, state: string, id: string)
    returns (updated: map<string, seq<string>>)
    requires state in stations && id !in ids
    requires forall s :: s in stations ==> stations[s] == Select(ids, owner, s)
    ensures updated == stations[state := stations[state] + [id]]
    ensures forall s :: s in updated ==> updated[s] == Select(ids + [id], owner[id := state], s)
  {
    updated := stations[state := stations[state] + [id]];
    forall s | s in updated ensures updated[s] == Select(ids + [id], owner[id := state], s) {
      SelectSnocNew(ids, owner, state, id, s);
    }
  }

  /** A first sighting of an id goes to the sighting's state and to the end of `ids`. */
  lemma RecordNewAccounts(t: Tally, stream: seq<Sighting>, state: string, id: string)
    requires state in t.stations && Accounts(t, stream) && id !in t.ids
    ensures Accounts(Record(t, state, id), stream + [Sighting(state, id)])
  {
    NewIdAppended(t.ids, stream, state, id);
    var _ := NewIdSelected(t.stations, t.ids, Owners(stream), state, id);
  }

  lemma RecordAccounts(t: Tally, stream: seq<Sighting>, state: string, id: string)
    requires state in t.stations && Accounts(t, stream)
    ensures Accounts(Record(t, state, id), stream + [Sighting(state, id)])
  {
    if id in t.ids {
      RecordSeenAccounts(t, stream, state, id);
    } else {
      RecordNewAccounts(t, stream, state, id);
    }
  }

  /** Recording a run of ids for one state keeps the tally accounting for the stream. */
  lemma {:induction false} RecordAllAccounts(t: Tally, stream: seq<Sighting>, state: string, ids: seq<string>)
    requires state in t.stations && Accounts(t, stream)
    ensures Accounts(RecordAll(t, state, ids), stream + Block(state, ids))
    decreases |ids|
  {
    if ids == [] {
      assert stream + Block(state, ids) == stream;
    } else {
      var init, id := ids[..|ids| - 1], ids[|ids| - 1];
      var before, stream0 := RecordAll(t, state, init), stream + Block(state, init);
      assert RecordAll(t, state, ids) == Record(before, state, id);
      assert stream + Block(state, ids) == stream0 + [Sighting(state, id)] by {
        assert Block(state, ids) == Block(state, init) + [Sighting(state, id)];
      }
      RecordAllAccounts(t, stream, state, init);
      RecordAccounts(before, stream0, state, id);
    }
  }

  /** A first-seen state starts with the empty list, as it owns nothing yet. */
  lemma VisitAccounts(t: Tally, stream: seq<Sighting>, state: string)
    requires Accounts(t, stream) && forall s :: s in t.listed <==> s in t.stations
    ensures Accounts(Visit(t, state), stream)
  {
    if state !in t.listed {
      var owners := Owners(stream);
      var t' := Visit(t, state);
      SelectNone(t.ids, owners, state);
      forall s | s in t'.stations ensures t'.stations[s] == Select(t'.ids, owners, s) {
        if s != state {
          assert t'.stations[s] == t.stations[s];
        }
      }
    }
  }

  /** The tally after the loop accounts for every sighting the loop met. */
  lemma {:induction false} CollectAccounts<N>(input: seq<(string, seq<Coord<N>>)>, link: (N, N) -> string)
    ensures Accounts(Collect(input, link), Stream(input, link))
    decreases |input|
  {
    if input != [] {
      var init := input[..|input| - 1];
      var (state, coords) := input[|input| - 1];
      CollectAccounts(init, link);
      VisitAccounts(Collect(init, link), Stream(init, link), state);
      RecordAllAccounts(Visit(Collect(init, link), state), Stream(init, link), state, IdsOf(coords, link));
    }
  }

  /** Every input state gets a key, possibly with an empty list; `station_ids` is the distinct ids in encounter order. */
  lemma CollectKeysAndIds<N>(input: seq<(string, seq<Coord<N>>)>, link: (N, N) -> string)
    ensures Collect(input, link).stations.Keys == InputStates(input)
    ensures Collect(input, link).ids == Distinct(StreamIds(Stream(input, link)))
  {
    CollectAccounts(input, link);
  }

  /** An id is listed under a state exactly when that state produced its first sighting. */
  lemma CollectAttribution<N>(input: seq<(string, seq<Coord<N>>)>, link: (N, N) -> string, s: string, x: string)
    requires s in Collect(input, link).stations
    ensures var stream := Stream(input, link);
      x in Collect(input, link).stations[s] <==>
        x in StreamIds(stream) && stream[IndexOf(StreamIds(stream), x)].state == s
  {
    var stream := Stream(input, link);
    CollectAccounts(input, link);
    SelectMembers(Collect(input, link).ids, Owners(stream), s, x);
    if x in StreamIds(stream) {
      OwnersFirst(stream, x);
    }
  }

  /** No station id occurs twice anywhere in the output, within one state or across two. */
  lemma CollectGloballyUnique<N>(input: seq<(string, seq<Coord<N>>)>, link: (N, N) -> string, s1: string, s2: string, i: nat, j: nat)
    requires var r := Collect(input, link);
      s1 in r.stations && s2 in r.stations && i < |r.stations[s1]| && j < |r.stations[s2]|
    requires Collect(input, link).stations[s1][i] == Collect(input, link).stations[s2][j]
    ensures s1 == s2 && i == j
  {
    var r := Collect(input, link);
    var owners := Owners(Stream(input, link));
    CollectAccounts(input, link);
    DistinctNoDup(StreamIds(Stream(input, link)));
    SelectNoDup(r.ids, owners, s1);
  }

  /** Each state's list is in the order its ids were first met. */
  lemma CollectEncounterOrder<N>(input: seq<(string, seq<Coord<N>>)>, link: (N, N) -> string, s: string, i: nat, j: nat)
    requires s in Collect(input, link).stations && i < j < |Collect(input, link).stations[s]|
    ensures Collect(input, link).stations[s][i] in StreamIds(Stream(input, link))
    ensures Collect(input, link).stations[s][j] in StreamIds(Stream(input, link))
    ensures IndexOf(StreamIds(Stream(input, link)), Collect(input, link).stations[s][i])
          < IndexOf(StreamIds(Stream(input, link)), Collect(input, link).stations[s][j])
  {
    var r := Collect(input, link);
    var seen := StreamIds(Stream(input, link));
    var sel := r.stations[s];
    assert r.ids == Distinct(seen) && sel == Select(r.ids, Owners(Stream(input, link)), s) by {
      CollectAccounts(input, link);
    }
    var d := Distinct(seen);
    DistinctNoDup(seen);
    SelectOrder(d, Owners(Stream(input, link)), s);
    var a, b := sel[i], sel[j];
    assert a in d && b in d;
    var ia, ib := IndexOf(d, a), IndexOf(d, b);
    assert ia < ib;
    DistinctOrder(seen);
    assert d[ia] == a && d[ib] == b;
  }

  /**
    The nested loops of `main`: for each state in order, give it a key on
    first sight, then append each of its station ids that no state has yet.
   */
  method CollectWeatherStations<N>(input: seq<(string, seq<Coord<N>>)>, link: (N, N) -> string)
    returns (weatherStations: map<string, seq<string>>, stationIds: seq<string>)
    ensures weatherStations == Collect(input, link).stations && stationIds == Collect(input, link).ids
  {
    var statesListed: seq<string> := [];
    weatherStations := map[];
    stationIds := [];
    var n := 0;
    while n < |input|
      invariant 0 <= n <= |input|
      invariant Tally(statesListed, weatherStations, stationIds) == Collect(input[..n], link)
    {
      assert input[..n + 1][..n] == input[..n];
      var (state, coords) := input[n];
      if state !in statesListed {
        statesListed := statesListed + [state];
        weatherStations := weatherStations[state := []];
      }
      ghost var visited := Tally(statesListed, weatherStations, stationIds);
      var m := 0;
      while m < |coords|
        invariant 0 <= m <= |coords|
        invariant state in weatherStations
        invariant Tally(statesListed, weatherStations, stationIds) == RecordAll(visited, state, IdsOf(coords[..m], link))
      {
        assert IdsOf(coords[..m + 1], link)[..m] == IdsOf(coords[..m], link);
        var lon, lat := coords[m].lon, coords[m].lat;
        var stationId := StationId(link(lat, lon));
        if stationId !in stationIds {
          stationIds := stationIds + [stationId];
          weatherStations := weatherStations[state := weatherStations[state] + [stationId]];
        }
        m := m + 1;
      }
      assert coords[..m] == coords;
      n := n + 1;
    }
    assert input[..n] == input;
  }
}
