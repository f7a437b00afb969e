/**
  The state -> coordinates index of extract_state_coordinates.py: numeric
  coercion, the per-state builder, the merger of two indexes, the
  longitude/latitude column detector and the orchestrator that combines the
  gazetteer with an optional CSV.

  Floats are left abstract: `N` is the type of parsed numbers, compared only
  for equality, and `parse` is the text-to-number conversion of
  `pd.to_numeric(..., errors="coerce")`, which yields `None` for any text
  that does not become a number (NaN included).
 */
module StateCoordinates {
  import opened Wrappers
  import opened Dedup
  import opened Text
  import opened Tables

  /** A (longitude, latitude) point. */
  datatype Coord<N> = Coord(lon: N, lat: N)

  /** State abbreviation -> its distinct coordinates. */
  type Index<N> = map<string, seq<Coord<N>>>

  /** The three column names one build reads. */
  datatype Schema = Schema(state: string, lon: string, lat: string)

  /** A row that survived coercion and the drop of missing values. */
  datatype Located<N> = Located(state: string, coord: Coord<N>)

  // ---------------------------------------------------------------------
  // Numeric coercion

  /** `_safe_to_float` on one cell: absent stays absent, text goes through `parse`. */
  function SafeToFloat<N>(parse: string -> Option<N>, cell: Option<string>): (r: Option<N>)
    ensures cell.None? ==> r.None?
    ensures cell.Some? ==> r == parse(cell.value)
  {
    match cell
    case None => None
    case Some(text) => parse(text)
  }

  // ---------------------------------------------------------------------
  // Index builder

  /** One row after both coordinate columns are coerced and `dropna` is applied. */
  function RowLocated<N>(columns: seq<string>, row: Row, schema: Schema, parse: string -> Option<N>): Option<Located<N>> {
    var state := Cell(columns, row, schema.state);
    var lon := SafeToFloat(parse, Cell(columns, row, schema.lon));
    var lat := SafeToFloat(parse, Cell(columns, row, schema.lat));
    if state.Some? && lon.Some? && lat.Some? then Some(Located(state.value, Coord(lon.value, lat.value)))
    else None
  }

  /** The group of `state`: coordinates of its surviving rows, in row order. */
  function Group<N>(columns: seq<string>, rows: seq<Row>, schema: Schema, parse: string -> Option<N>, state: string): seq<Coord<N>>
    decreases |rows|
  {
    if rows == [] then []
    else
      var prev := Group(columns, rows[..|rows| - 1], schema, parse, state);
      var last := RowLocated(columns, rows[|rows| - 1], schema, parse);
      if last.Some? && last.value.state == state then prev + [last.value.coord] else prev
  }

  /** The groupby keys: the states of the surviving rows. */
  function States<N>(columns: seq<string>, rows: seq<Row>, schema: Schema, parse: string -> Option<N>): set<string>
    decreases |rows|
  {
    if rows == [] then {}
    else
      var prev := States(columns, rows[..|rows| - 1], schema, parse);
      var last := RowLocated(columns, rows[|rows| - 1], schema, parse);
      if last.Some? then prev + {last.value.state} else prev
  }

  /** The index `_build_state_to_coords_from_df` returns: each state's group, de-duplicated. */
  function Grouped<N(==)>(t: Table, schema: Schema, parse: string -> Option<N>): Index<N> {
    map s | s in States(t.columns, t.rows, schema, parse) :: Distinct(Group(t.columns, t.rows, schema, parse, s))
  }

  /** `_build_state_to_coords_from_df`: group the surviving rows by state, keeping each coordinate once. */
  method BuildStateToCoords<N(==)>(t: Table, schema: Schema, parse: string -> Option<N>) returns (result: Index<N>)
    ensures result == Grouped(t, schema, parse)
  {
    var all := States(t.columns, t.rows, schema, parse);
    var pending := all;
    result := map[];
    while pending != {}
      invariant pending <= all
      invariant result.Keys == all - pending
      invariant forall s :: s in result ==> result[s] == Distinct(Group(t.columns, t.rows, schema, parse, s))
      decreases pending
    {
      var state :| state in pending;
      var coords := AppendUnseen([], Group(t.columns, t.rows, schema, parse, state));
      result := result[state := coords];
      pending := pending - {state};
    }
  }

  lemma {:induction false} GroupConcat<N>(columns: seq<string>, a: seq<Row>, b: seq<Row>, schema: Schema, parse: string -> Option<N>, state: string)
    ensures Group(columns, a + b, schema, parse, state) == Group(columns, a, schema, parse, state) + Group(columns, b, schema, parse, state)
    ensures States(columns, a + b, schema, parse) == States(columns, a, schema, parse) + States(columns, b, schema, parse)
    decreases |b|
  {
    if b == [] {
      assert a + b == a;
    } else {
      var init := b[..|b| - 1];
      assert (a + b)[..|a + b| - 1] == a + init;
      assert (a + b)[|a + b| - 1] == b[|b| - 1];
      GroupConcat(columns, a, init, schema, parse, state);
    }
  }

  /** A coordinate is in a state's group exactly when some surviving row of that state carries it. */
  lemma {:induction false} GroupMembers<N>(columns: seq<string>, rows: seq<Row>, schema: Schema, parse: string -> Option<N>, state: string, c: Coord<N>)
    ensures c in Group(columns, rows, schema, parse, state) <==>
      exists k :: 0 <= k < |rows| && RowLocated(columns, rows[k], schema, parse) == Some(Located(state, c))
    decreases |rows|
  {
    if rows != [] {
      var init := rows[..|rows| - 1];
      var last := RowLocated(columns, rows[|rows| - 1], schema, parse);
      var g := Group(columns, init, schema, parse, state);
      assert Group(columns, rows, schema, parse, state) == if last.Some? && last.value.state == state then g + [last.value.coord] else g;
      GroupMembers(columns, init, schema, parse, state, c);
      forall k | 0 <= k < |rows| && RowLocated(columns, rows[k], schema, parse) == Some(Located(state, c))
        ensures c in Group(columns, rows, schema, parse, state)
      {
        if k < |init| {
          assert init[k] == rows[k];
        }
      }
      if c in g {
        var k :| 0 <= k < |init| && RowLocated(columns, init[k], schema, parse) == Some(Located(state, c));
        assert rows[k] == init[k];
      }
    }
  }

  /** A state is a key exactly when some row of that state survives. */
  lemma {:induction false} StatesMembers<N>(columns: seq<string>, rows: seq<Row>, schema: Schema, parse: string -> Option<N>, state: string)
    ensures state in States(columns, rows, schema, parse) <==>
      exists k :: 0 <= k < |rows| && RowLocated(columns, rows[k], schema, parse).Some? && RowLocated(columns, rows[k], schema, parse).value.state == state
    decreases |rows|
  {
    if rows != [] {
      var init := rows[..|rows| - 1];
      var last := RowLocated(columns, rows[|rows| - 1], schema, parse);
      var st := States(columns, init, schema, parse);
      assert States(columns, rows, schema, parse) == if last.Some? then st + {last.value.state} else st;
      StatesMembers(columns, init, schema, parse, state);
      forall k | 0 <= k < |rows| && RowLocated(columns, rows[k], schema, parse).Some? && RowLocated(columns, rows[k], schema, parse).value.state == state
        ensures state in States(columns, rows, schema, parse)
      {
        if k < |init| {
          assert init[k] == rows[k];
        }
      }
      if state in st {
        var k :| 0 <= k < |init| && RowLocated(columns, init[k], schema, parse).Some? && RowLocated(columns, init[k], schema, parse).value.state == state;
        assert rows[k] == init[k];
      }
    }
  }

  /** No state's list holds the same coordinate twice. */
  lemma BuildNoDuplicates<N>(t: Table, schema: Schema, parse: string -> Option<N>)
    ensures forall s :: s in Grouped(t, schema, parse) ==> NoDup(Grouped(t, schema, parse)[s])
  {
    forall s | s in Grouped(t, schema, parse) ensures NoDup(Grouped(t, schema, parse)[s]) {
      DistinctNoDup(Group(t.columns, t.rows, schema, parse, s));
    }
  }

  /**
    The keys are the states of the surviving rows, and a state's list holds
    exactly the coordinates of its surviving rows.
   */
  lemma BuildCompleteness<N>(t: Table, schema: Schema, parse: string -> Option<N>, s: string, c: Coord<N>)
    ensures s in Grouped(t, schema, parse) <==>
      exists k :: 0 <= k < |t.rows| && RowLocated(t.columns, t.rows[k], schema, parse).Some? && RowLocated(t.columns, t.rows[k], schema, parse).value.state == s
    ensures s in Grouped(t, schema, parse) ==>
      (c in Grouped(t, schema, parse)[s] <==> exists k :: 0 <= k < |t.rows| && RowLocated(t.columns, t.rows[k], schema, parse) == Some(Located(s, c)))
  {
    StatesMembers(t.columns, t.rows, schema, parse, s);
    GroupMembers(t.columns, t.rows, schema, parse, s, c);
  }

  /** Each state's list follows the order in which its coordinates first occur among its rows. */
  lemma BuildFirstOccurrenceOrder<N>(t: Table, schema: Schema, parse: string -> Option<N>, s: string)
    requires s in Grouped(t, schema, parse)
    ensures var g := Group(t.columns, t.rows, schema, parse, s);
      Grouped(t, schema, parse)[s] == Distinct(g) &&
      forall i, j :: 0 <= i < j < |Distinct(g)| ==> IndexOf(g, Distinct(g)[i]) < IndexOf(g, Distinct(g)[j])
  {
    DistinctOrder(Group(t.columns, t.rows, schema, parse, s));
  }

  /**
    The drop rule: a row whose state is absent, or whose longitude or
    latitude does not parse, contributes nothing; removing it leaves the
    index as it was.
   */
  lemma BuildDropsIncompleteRow<N>(t: Table, schema: Schema, parse: string -> Option<N>, k: nat)
    requires k < |t.rows|
    requires Cell(t.columns, t.rows[k], schema.state).None?
          || SafeToFloat(parse, Cell(t.columns, t.rows[k], schema.lon)).None?
          || SafeToFloat(parse, Cell(t.columns, t.rows[k], schema.lat)).None?
    ensures Grouped(Table(t.columns, t.rows[..k] + t.rows[k + 1..]), schema, parse) == Grouped(t, schema, parse)
  {
    var a, b := t.rows[..k], t.rows[k + 1..];
    assert t.rows == a + [t.rows[k]] + b;
    assert [t.rows[k]][..0] == [];
    forall s ensures Group(t.columns, t.rows, schema, parse, s) == Group(t.columns, a + b, schema, parse, s) {
      GroupConcat(t.columns, a + [t.rows[k]], b, schema, parse, s);
      GroupConcat(t.columns, a, [t.rows[k]], schema, parse, s);
      GroupConcat(t.columns, a, b, schema, parse, s);
    }
    GroupConcat(t.columns, a + [t.rows[k]], b, schema, parse, "");
    GroupConcat(t.columns, a, [t.rows[k]], schema, parse, "");
    GroupConcat(t.columns, a, b, schema, parse, "");
  }

  // ---------------------------------------------------------------------
  // Index merger

  /** The merge of `additional` into `base`, state by state. */
  function Merged<N(==)>(base: Index<N>, additional: Index<N>): Index<N> {
    map s | s in base.Keys + additional.Keys :: MergedList(base, additional, s)
  }

  /** The merged list of one state of either index. */
  function MergedList<N(==)>(base: Index<N>, additional: Index<N>, s: string): seq<Coord<N>>
    requires s in base || s in additional
  {
    if s !in base then additional[s]
    else if s in additional then Extend(base[s], additional[s])
    else base[s]
  }

  /**
    `_merge_state_coord_dicts`: a state only in `base` is kept, a state only
    in `additional` is copied verbatim, and a shared state keeps its base list
    followed by the additional coordinates the base lacks, in their order.
   */
  method MergeStateCoordDicts<N(==)>(base: Index<N>, additional: Index<N>) returns (merged: Index<N>)
    ensures merged == Merged(base, additional)
    ensures merged.Keys == base.Keys + additional.Keys
    ensures forall s :: s in base && s !in additional ==> merged[s] == base[s]
    ensures forall s :: s in additional && s !in base ==> merged[s] == additional[s]
    ensures forall s :: s in base && s in additional ==> merged[s] == base[s] + Distinct(Without(additional[s], base[s]))
  {
    merged := base;
    var pending := additional.Keys;
    assert merged == MergedOn(base, additional, {});
    while pending != {}
      invariant pending <= additional.Keys
      invariant merged == MergedOn(base, additional, additional.Keys - pending)
      decreases pending
    {
      var state :| state in pending;
      var done := additional.Keys - pending;
      MergedOnStep(base, additional, done, state);
      var coords;
      if state !in merged {
        coords := additional[state];
      } else {
        coords := AppendUnseen(merged[state], additional[state]);
      }
      merged := merged[state := coords];
      pending := pending - {state};
      assert additional.Keys - pending == done + {state};
    }
    assert additional.Keys - pending == additional.Keys;
    MergedCases(base, additional);
  }

  /** `base` with the states of `done` already merged. */
  function MergedOn<N(==)>(base: Index<N>, additional: Index<N>, done: set<string>): Index<N>
    requires done <= additional.Keys
  {
    map s | s in base.Keys + done :: if s in done then MergedList(base, additional, s) else base[s]
  }

  /** Merging one more state updates exactly that state's entry; merging them all is `Merged`. */
  lemma MergedOnStep<N>(base: Index<N>, additional: Index<N>, done: set<string>, state: string)
    requires done <= additional.Keys && state in additional && state !in done
    ensures MergedOn(base, additional, done + {state}) == MergedOn(base, additional, done)[state := MergedList(base, additional, state)]
    ensures state in MergedOn(base, additional, done) ==> MergedOn(base, additional, done)[state] == base[state]
    ensures state in MergedOn(base, additional, done) <==> state in base
    ensures MergedOn(base, additional, additional.Keys) == Merged(base, additional)
  {
  }

  /** The three cases of `Merged`, with the shared case spelled as base followed by the new coordinates. */
  lemma MergedCases<N>(base: Index<N>, additional: Index<N>)
    ensures Merged(base, additional).Keys == base.Keys + additional.Keys
    ensures forall s :: s in base && s !in additional ==> Merged(base, additional)[s] == base[s]
    ensures forall s :: s in additional && s !in base ==> Merged(base, additional)[s] == additional[s]
    ensures forall s :: s in base && s in additional ==>
      Merged(base, additional)[s] == base[s] + Distinct(Without(additional[s], base[s]))
  {
    forall s | s in base && s in additional
      ensures Merged(base, additional)[s] == base[s] + Distinct(Without(additional[s], base[s]))
    {
      ExtendIsAppendOfNew(base[s], additional[s]);
    }
  }

  lemma {:induction false} WithoutNoDup<T>(s: seq<T>, excluded: seq<T>)
    requires NoDup(s)
    ensures NoDup(Without(s, excluded))
    decreases |s|
  {
    if s != [] {
      var init := s[..|s| - 1];
      assert NoDup(init);
      WithoutNoDup(init, excluded);
    }
  }

  /** When the additional list is duplicate-free, the shared state's list is base ++ (additional minus base). */
  lemma MergeSharedState<N>(base: Index<N>, additional: Index<N>, s: string)
    requires s in base && s in additional && NoDup(additional[s])
    ensures Merged(base, additional)[s] == base[s] + Without(additional[s], base[s])
  {
    ExtendIsAppendOfNew(base[s], additional[s]);
    WithoutNoDup(additional[s], base[s]);
    DistinctOfNoDup(Without(additional[s], base[s]));
  }

  /** Merging two duplicate-free indexes yields a duplicate-free index. */
  lemma MergeNoDuplicates<N>(base: Index<N>, additional: Index<N>)
    requires forall s :: s in base ==> NoDup(base[s])
    requires forall s :: s in additional ==> NoDup(additional[s])
    ensures forall s :: s in Merged(base, additional) ==> NoDup(Merged(base, additional)[s])
  {
    forall s | s in base && s in additional ensures NoDup(Merged(base, additional)[s]) {
      ExtendNoDup(base[s], additional[s]);
    }
  }

  // ---------------------------------------------------------------------
  // Schema detector

  /** The (longitude, latitude) name pairs, in priority order. */
  const LonLatCandidates: seq<(string, string)> :=
    [("longitude", "latitude"), ("lon", "lat"), ("long", "lat"), ("intptlong", "intptlat")]

  /** Some column's lower-cased name is `key`. */
  ghost predicate HasColumn(columns: seq<string>, key: string) {
    exists j :: 0 <= j < |columns| && Lower(columns[j]) == key
  }

  /** `name` is the last column whose lower-cased name is `key`. */
  ghost predicate LastSpelling(columns: seq<string>, key: string, name: string) {
    exists j :: 0 <= j < |columns| && columns[j] == name && Lower(name) == key &&
      forall j' :: j < j' < |columns| ==> Lower(columns[j']) != key
  }

  ghost predicate PairPresent(columns: seq<string>, k: nat)
    requires k < |LonLatCandidates|
  {
    HasColumn(columns, LonLatCandidates[k].0) && HasColumn(columns, LonLatCandidates[k].1)
  }

  /** `{c.lower(): c for c in columns}`: a later column overwrites an earlier one with the same lower-cased name. */
  function LowerColumns(columns: seq<string>): map<string, string>
    decreases |columns|
  {
    if columns == [] then map[]
    else LowerColumns(columns[..|columns| - 1])[Lower(columns[|columns| - 1]) := columns[|columns| - 1]]
  }

  /** The lower-cased names are exactly the keys, and each maps to the last column spelled that way. */
  lemma {:induction false} LowerColumnsFacts(columns: seq<string>)
    ensures forall key :: key in LowerColumns(columns) <==> HasColumn(columns, key)
    ensures forall key :: key in LowerColumns(columns) ==> LastSpelling(columns, key, LowerColumns(columns)[key])
    decreases |columns|
  {
    if columns != [] {
      var init, last := columns[..|columns| - 1], columns[|columns| - 1];
      var m := LowerColumns(init);
      LowerColumnsFacts(init);
      forall key | HasColumn(init, key) ensures HasColumn(columns, key) {
        var j :| 0 <= j < |init| && Lower(init[j]) == key;
        assert columns[j] == init[j];
      }
      forall key | HasColumn(columns, key) && key != Lower(last) ensures HasColumn(init, key) {
        var j :| 0 <= j < |columns| && Lower(columns[j]) == key;
        assert j < |init| && init[j] == columns[j];
      }
      forall key | key in m && key != Lower(last) ensures LastSpelling(columns, key, m[key]) {
        var j :| 0 <= j < |init| && init[j] == m[key] && Lower(m[key]) == key &&
          forall j' :: j < j' < |init| ==> Lower(init[j']) != key;
        assert columns[j] == init[j];
        forall j' | j < j' < |columns| ensures Lower(columns[j']) != key {
          if j' < |init| { assert columns[j'] == init[j']; }
        }
      }
      assert columns[|columns| - 1] == last;
      assert LastSpelling(columns, Lower(last), last);
    }
  }

  ghost predicate BothIn(lower: map<string, string>, k: nat)
    requires k < |LonLatCandidates|
  {
    LonLatCandidates[k].0 in lower && LonLatCandidates[k].1 in lower
  }

  /** The candidate loop of `_detect_lat_lon_columns`, from candidate `k` on. */
  function DetectFrom(lower: map<string, string>, k: nat): (r: Option<(string, string)>)
    requires k <= |LonLatCandidates|
    ensures r.None? <==> forall k' :: k <= k' < |LonLatCandidates| ==> !BothIn(lower, k')
    ensures r.Some? ==>
      exists k' ::
        && k <= k' < |LonLatCandidates| && BothIn(lower, k')
        && (forall k'' :: k <= k'' < k' ==> !BothIn(lower, k''))
        && r.value == (lower[LonLatCandidates[k'].0], lower[LonLatCandidates[k'].1])
    decreases |LonLatCandidates| - k
  {
    if k == |LonLatCandidates| then None
    else
      var (lonKey, latKey) := LonLatCandidates[k];
      if lonKey in lower && latKey in lower then
        assert BothIn(lower, k);
        Some((lower[lonKey], lower[latKey]))
      else DetectFrom(lower, k + 1)
  }

  /**
    `_detect_lat_lon_columns`: the first candidate pair whose two names both
    occur among the lower-cased column names, answered with the original
    (last-seen) spellings; `None` when no pair occurs.
   */
  function DetectLatLonColumns(columns: seq<string>): (r: Option<(string, string)>)
    ensures r.None? <==> forall k :: 0 <= k < |LonLatCandidates| ==> !PairPresent(columns, k)
    ensures r.Some? ==>
      exists k ::
        && 0 <= k < |LonLatCandidates| && PairPresent(columns, k)
        && (forall k' :: 0 <= k' < k ==> !PairPresent(columns, k'))
        && LastSpelling(columns, LonLatCandidates[k].0, r.value.0)
        && LastSpelling(columns, LonLatCandidates[k].1, r.value.1)
  {
    var lower := LowerColumns(columns);
    LowerColumnsFacts(columns);
    assert forall k :: 0 <= k < |LonLatCandidates| ==> (BothIn(lower, k) <==> PairPresent(columns, k));
    DetectFrom(lower, 0)
  }

  // ---------------------------------------------------------------------
  // Orchestrator

  /** A source file: absent on disk, or loaded. */
  datatype Source = Missing | Present(table: Table)

  datatype SourceRole = GazetteerFile | CsvFile

  /** `FileNotFoundError` and the `ValueError` for missing gazetteer columns. */
  datatype ExtractError = FileNotFound(role: SourceRole) | MissingColumns(missing: set<string>)

  const RequiredColumns: set<string> := {"USPS", "INTPTLONG", "INTPTLAT"}

  const GazetteerSchema: Schema := Schema("USPS", "INTPTLONG", "INTPTLAT")

  /** The CSV state-column names, in the order they are tried. */
  const StateCandidates: seq<string> := ["State", "USPS", "state", "usps"]

  /** `df.columns = df.columns.str.strip()`. */
  function StripHeader(t: Table): (r: Table)
    ensures |r.columns| == |t.columns| && r.rows == t.rows
    ensures forall i :: 0 <= i < |t.columns| ==> r.columns[i] == Strip(t.columns[i])
  {
    Table(seq(|t.columns|, i requires 0 <= i < |t.columns| => Strip(t.columns[i])), t.rows)
  }

  /** The required gazetteer columns the (stripped) header lacks. */
  function MissingRequired(t: Table): set<string> {
    RequiredColumns - set c | c in StripHeader(t).columns
  }

  /** `df[df[col].isin(allowed)]` keeps a row whose cell under `col` is present and allowed. */
  predicate Admitted(columns: seq<string>, row: Row, col: string, allowed: set<string>) {
    var cell := Cell(columns, row, col);
    cell.Some? && cell.value in allowed
  }

  function KeepRows(columns: seq<string>, rows: seq<Row>, col: string, allowed: set<string>): (r: seq<Row>)
    ensures forall i :: 0 <= i < |r| ==> r[i] in rows && Admitted(columns, r[i], col, allowed)
    ensures forall i :: 0 <= i < |rows| && Admitted(columns, rows[i], col, allowed) ==> rows[i] in r
    decreases |rows|
  {
    if rows == [] then []
    else
      var prev := KeepRows(columns, rows[..|rows| - 1], col, allowed);
      var last := rows[|rows| - 1];
      if Admitted(columns, last, col, allowed) then prev + [last] else prev
  }

  /** The allow-list filter on the state column `col`, rows kept in order. */
  function KeepAllowed(t: Table, col: string, allowed: set<string>): (r: Table)
    ensures r.columns == t.columns
    ensures forall i :: 0 <= i < |r.rows| ==> r.rows[i] in t.rows && Admitted(t.columns, r.rows[i], col, allowed)
    ensures forall i :: 0 <= i < |t.rows| && Admitted(t.columns, t.rows[i], col, allowed) ==> t.rows[i] in r.rows
  {
    Table(t.columns, KeepRows(t.columns, t.rows, col, allowed))
  }

  /** The optional filter: no allow-list keeps every row. */
  function Restrict(t: Table, col: string, allowed: Option<set<string>>): Table {
    if allowed.Some? then KeepAllowed(t, col, allowed.value) else t
  }

  /** The state-column search from candidate `k` on. */
  function StateColumnFrom(columns: seq<string>, k: nat): (r: Option<string>)
    requires k <= |StateCandidates|
    ensures r.None? <==> forall k' :: k <= k' < |StateCandidates| ==> StateCandidates[k'] !in columns
    ensures r.Some? ==> r.value in columns
    ensures r.Some? ==>
      exists k' ::
        && k <= k' < |StateCandidates| && StateCandidates[k'] == r.value
        && forall k'' :: k <= k'' < k' ==> StateCandidates[k''] !in columns
    decreases |StateCandidates| - k
  {
    if k == |StateCandidates| then None
    else if StateCandidates[k] in columns then Some(StateCandidates[k])
    else StateColumnFrom(columns, k + 1)
  }

  /** The first of "State", "USPS", "state", "usps" that is a column. */
  function StateColumn(columns: seq<string>): Option<string> {
    StateColumnFrom(columns, 0)
  }

  /** The gazetteer index: stripped header, allow-list on USPS, build. */
  ghost function GazetteerIndex<N>(t: Table, allowed: Option<set<string>>, parse: string -> Option<N>): Index<N> {
    Grouped(Restrict(StripHeader(t), "USPS", allowed), GazetteerSchema, parse)
  }

  /** The CSV index, or `None` when the CSV has no state column or no coordinate pair. */
  ghost function CsvIndex<N>(t: Table, allowed: Option<set<string>>, parse: string -> Option<N>): Option<Index<N>> {
    var data := StripHeader(t);
    match StateColumn(data.columns)
    case None => None
    case Some(stateCol) =>
      var kept := Restrict(data, stateCol, allowed);
      match DetectLatLonColumns(kept.columns)
      case None => None
      case Some((lonCol, latCol)) => Some(Grouped(kept, Schema(stateCol, lonCol, latCol), parse))
  }

  /** Every state of a build over admitted rows is allowed. */
  lemma {:induction false} StatesOfAdmitted<N>(columns: seq<string>, rows: seq<Row>, schema: Schema, parse: string -> Option<N>, allowed: set<string>)
    requires forall i :: 0 <= i < |rows| ==> Admitted(columns, rows[i], schema.state, allowed)
    ensures States(columns, rows, schema, parse) <= allowed
    decreases |rows|
  {
    if rows != [] {
      StatesOfAdmitted(columns, rows[..|rows| - 1], schema, parse, allowed);
    }
  }

  /** Filtering a source on its state column before building keeps every key in the allow-list. */
  lemma BuildAfterKeepAllowed<N>(t: Table, schema: Schema, parse: string -> Option<N>, allowed: set<string>)
    ensures Grouped(KeepAllowed(t, schema.state, allowed), schema, parse).Keys <= allowed
  {
    var kept := KeepAllowed(t, schema.state, allowed);
    StatesOfAdmitted(kept.columns, kept.rows, schema, parse, allowed);
  }

  /**
    The filter keeps the rows of allowed states in their order and drops
    the others: an allowed state keeps its whole group, any other state
    has none.
   */
  lemma {:induction false} KeepRowsGroup<N>(columns: seq<string>, rows: seq<Row>, schema: Schema, parse: string -> Option<N>, allowed: set<string>, s: string)
    ensures Group(columns, KeepRows(columns, rows, schema.state, allowed), schema, parse, s) ==
      if s in allowed then Group(columns, rows, schema, parse, s) else []
    ensures States(columns, KeepRows(columns, rows, schema.state, allowed), schema, parse) ==
      States(columns, rows, schema, parse) * allowed
    decreases |rows|
  {
    if rows != [] {
      var init, last := rows[..|rows| - 1], rows[|rows| - 1];
      var kept := KeepRows(columns, init, schema.state, allowed);
      KeepRowsGroup(columns, init, schema, parse, allowed, s);
      if Admitted(columns, last, schema.state, allowed) {
        assert (kept + [last])[..|kept|] == kept;
      }
    }
  }

  /** Filtering on the state column restricts the index to the allowed states and changes no list. */
  lemma GroupedAfterKeepAllowed<N>(t: Table, schema: Schema, parse: string -> Option<N>, allowed: set<string>)
    ensures Grouped(KeepAllowed(t, schema.state, allowed), schema, parse) ==
      map s | s in Grouped(t, schema, parse) && s in allowed :: Grouped(t, schema, parse)[s]
  {
    KeepRowsGroup(t.columns, t.rows, schema, parse, allowed, "");
    forall s | s in allowed {
      KeepRowsGroup(t.columns, t.rows, schema, parse, allowed, s);
    }
  }

  /** What `extract_state_coordinates` returns or raises. */
  ghost function Extracted<N>(gazetteer: Source, csv: Option<Source>, allowed: Option<set<string>>, parse: string -> Option<N>): Result<Index<N>, ExtractError> {
    if gazetteer.Missing? then Failure(FileNotFound(GazetteerFile))
    else if MissingRequired(gazetteer.table) != {} then Failure(MissingColumns(MissingRequired(gazetteer.table)))
    else
      var base := GazetteerIndex(gazetteer.table, allowed, parse);
      if csv.None? then Success(base)
      else if csv.value.Missing? then Failure(FileNotFound(CsvFile))
      else match CsvIndex(csv.value.table, allowed, parse)
        case None => Success(base)
        case Some(additional) => Success(Merged(base, additional))
  }

  /**
    With an allow-list every key of the result is allowed, since both
    sources are filtered on their state column before building.
   */
  lemma ExtractedKeysAllowed<N>(gazetteer: Source, csv: Option<Source>, allowed: set<string>, parse: string -> Option<N>)
    ensures var r := Extracted(gazetteer, csv, Some(allowed), parse);
      r.Success? ==> r.value.Keys <= allowed
  {
    if gazetteer.Present? && MissingRequired(gazetteer.table) == {} {
      BuildAfterKeepAllowed(StripHeader(gazetteer.table), GazetteerSchema, parse, allowed);
      if csv.Some? && csv.value.Present? {
        var data := StripHeader(csv.value.table);
        if StateColumn(data.columns).Some? {
          var stateCol := StateColumn(data.columns).value;
          var kept := KeepAllowed(data, stateCol, allowed);
          if DetectLatLonColumns(kept.columns).Some? {
            var (lonCol, latCol) := DetectLatLonColumns(kept.columns).value;
            BuildAfterKeepAllowed(data, Schema(stateCol, lonCol, latCol), parse, allowed);
          }
        }
      }
    }
  }

  /** No state's list in a successful result holds a coordinate twice. */
  lemma ExtractedNoDuplicates<N>(gazetteer: Source, csv: Option<Source>, allowed: Option<set<string>>, parse: string -> Option<N>)
    ensures var r := Extracted(gazetteer, csv, allowed, parse);
      r.Success? ==> forall s :: s in r.value ==> NoDup(r.value[s])
  {
    if gazetteer.Present? && MissingRequired(gazetteer.table) == {} {
      var gaz := Restrict(StripHeader(gazetteer.table), "USPS", allowed);
      BuildNoDuplicates(gaz, GazetteerSchema, parse);
      if csv.Some? && csv.value.Present? {
        var data := StripHeader(csv.value.table);
        if StateColumn(data.columns).Some? {
          var stateCol := StateColumn(data.columns).value;
          var kept := Restrict(data, stateCol, allowed);
          if DetectLatLonColumns(kept.columns).Some? {
            var (lonCol, latCol) := DetectLatLonColumns(kept.columns).value;
            var schema := Schema(stateCol, lonCol, latCol);
            BuildNoDuplicates(kept, schema, parse);
            MergeNoDuplicates(Grouped(gaz, GazetteerSchema, parse), Grouped(kept, schema, parse));
          }
        }
      }
    }
  }

  /** A CSV without a state column or without a coordinate pair leaves the gazetteer index as the result. */
  lemma CsvIgnoredWithoutSchema<N>(gazetteer: Source, t: Table, allowed: Option<set<string>>, parse: string -> Option<N>)
    requires gazetteer.Present? && MissingRequired(gazetteer.table) == {}
    requires var data := StripHeader(t);
      || StateColumn(data.columns).None?
      || DetectLatLonColumns(Restrict(data, StateColumn(data.columns).value, allowed).columns).None?
    ensures Extracted(gazetteer, Some(Present(t)), allowed, parse) == Success(GazetteerIndex(gazetteer.table, allowed, parse))
  {
  }

  /**
    The CSV part of `extract_state_coordinates`, once the file is known to
    exist: pick the state column, filter, detect the coordinate pair, build
    and merge into `base`; without a state column or a pair, `base` is
    returned as it is.
   */
  method MergeCsv<N(==)>(base: Index<N>, csv: Table, allowed: Option<set<string>>, parse: string -> Option<N>)
    returns (merged: Index<N>)
    ensures CsvIndex(csv, allowed, parse).None? ==> merged == base
    ensures CsvIndex(csv, allowed, parse).Some? ==> merged == Merged(base, CsvIndex(csv, allowed, parse).value)
  {
    merged := base;
    var data := StripHeader(csv);

    var stateCol: Option<string> := None;
    var i := 0;
    while i < |StateCandidates|
      invariant 0 <= i <= |StateCandidates|
      invariant stateCol.None? && StateColumnFrom(data.columns, i) == StateColumn(data.columns)
    {
      if StateCandidates[i] in data.columns {
        stateCol := Some(StateCandidates[i]);
        break;
      }
      i := i + 1;
    }
    assert stateCol == StateColumn(data.columns);

    if stateCol.Some? {
      if allowed.Some? {
        data := KeepAllowed(data, stateCol.value, allowed.value);
      }
      var detected := DetectLatLonColumns(data.columns);
      if detected.Some? {
        var (lonCol, latCol) := detected.value;
        var additional := BuildStateToCoords(data, Schema(stateCol.value, lonCol, latCol), parse);
        merged := MergeStateCoordDicts(merged, additional);
      }
    }
  }

  /**
    `extract_state_coordinates`: the gazetteer must exist and carry USPS,
    INTPTLONG and INTPTLAT after its header is stripped; the CSV, when
    given, must exist, and is merged into the gazetteer index only when it
    has a state column and a coordinate pair.
   */
  method ExtractStateCoordinates<N(==)>(gazetteer: Source, csv: Option<Source>, allowed: Option<set<string>>, parse: string -> Option<N>)
    returns (r: Result<Index<N>, ExtractError>)
    ensures r == Extracted(gazetteer, csv, allowed, parse)
    ensures gazetteer.Missing? ==> r == Failure(FileNotFound(GazetteerFile))
    ensures gazetteer.Present? && MissingRequired(gazetteer.table) != {} ==>
      r == Failure(MissingColumns(MissingRequired(gazetteer.table)))
    ensures r.Success? && allowed.Some? ==> r.value.Keys <= allowed.value
    ensures r.Success? ==> forall s :: s in r.value ==> NoDup(r.value[s])
  {
    if allowed.Some? {
      ExtractedKeysAllowed(gazetteer, csv, allowed.value, parse);
    }
    ExtractedNoDuplicates(gazetteer, csv, allowed, parse);
    if gazetteer.Missing? {
      return Failure(FileNotFound(GazetteerFile));
    }
    var gaz := StripHeader(gazetteer.table);
    var missing := RequiredColumns - set c | c in gaz.columns;
    if missing != {} {
      return Failure(MissingColumns(missing));
    }
    assert "USPS" in RequiredColumns && "USPS" !in missing;
    if allowed.Some? {
      if "USPS" in gaz.columns {
        gaz := KeepAllowed(gaz, "USPS", allowed.value);
      }
    }
    var stateToCoords := BuildStateToCoords(gaz, GazetteerSchema, parse);

    if csv.Some? {
      if csv.value.Missing? {
        return Failure(FileNotFound(CsvFile));
      }
      stateToCoords := MergeCsv(stateToCoords, csv.value.table, allowed, parse);
    }
    return Success(stateToCoords);
  }
}
