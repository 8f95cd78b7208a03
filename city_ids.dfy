/** The contractor-name to City Id resolver of `my_mods.PY` (class
    `CityIdFinder`): a cascade of exact look-ups over five normalised forms
    of the name, then a fuzzy fallback over every name column.

    The functions here compute; what they guarantee is proved in module
    `CityIdFacts`. */
module CityIds {
  import opened Wrappers
  import opened PyStr
  import opened Seqs

  /** The "City Id Hub" sheet as loaded: column 0 holds the City Id, every
      other column a name variant. Cells are the strings the code compares
      (`astype(str)`); rows are addressed by position. */
  datatype Sheet = Sheet(width: nat, rows: seq<seq<string>>)

  /** A loaded sheet is rectangular. */
  type RefTable = t: Sheet | forall i :: 0 <= i < |t.rows| ==> |t.rows[i]| == t.width
    witness Sheet(0, [])

  /** `fuzz.token_sort_ratio` is a foreign library function: here it is any
      function of (query, choice) with a score between 0 and 100. */
  type Score = s: int | 0 <= s <= 100
  type Scorer = (string, string) -> Score

  /** What `find_city_id` hands back: a City Id taken from column 0, the
      "Not Found" or "Data not loaded" sentinel, or the `UnboundLocalError`
      Python raises when it returns `best_city_id` without ever binding it. */
  datatype Outcome = CityId(id: string) | NotFound | DataNotLoaded | UnboundLocalError

  // ---------------------------------------------------------------------
  // Search phases

  /** `split('(')[0].rstrip('.').strip()`: the name without its parenthetical
      annotation and trailing periods. `rstrip('.')` runs before `strip()`,
      so a period followed by a space survives. */
  function BaseForm(name: string): string {
    var head := BeforeFirst(name, '(');
    Strip(TrimEnd(head, '.'))
  }

  /** `preprocess_search_phases`: the five candidates tried in order. */
  function SearchPhases(name: string): (r: seq<string>)
    ensures |r| == 5
  {
    var base := BaseForm(name);
    var noCommas := RemoveAll(base, ',');
    var noDots := RemoveAll(base, '.');
    var head := Strip(BeforeFirst(base, ','));
    [name, base, noCommas, noDots, head]
  }

  // ---------------------------------------------------------------------
  // Exact cascade

  /** Column `c` as strings. */
  function Column(t: RefTable, c: nat): (r: seq<string>)
    requires c < t.width
    ensures |r| == |t.rows|
  {
    ColumnOf(t.rows, c)
  }

  function ColumnOf(rows: seq<seq<string>>, c: nat): (r: seq<string>)
    requires forall i :: 0 <= i < |rows| ==> c < |rows[i]|
    ensures |r| == |rows|
  {
    if rows == [] then [] else [rows[0][c]] + ColumnOf(rows[1..], c)
  }

  /** Row `i` of column `c` is cell `c` of row `i`. */
  lemma ColumnSpec(t: RefTable, c: nat)
    requires c < t.width
    ensures forall i :: 0 <= i < |t.rows| ==> Column(t, c)[i] == t.rows[i][c]
  {
    ColumnOfSpec(t.rows, c);
  }

  lemma {:induction false} ColumnOfSpec(rows: seq<seq<string>>, c: nat)
    requires forall i :: 0 <= i < |rows| ==> c < |rows[i]|
    ensures forall i :: 0 <= i < |rows| ==> ColumnOf(rows, c)[i] == rows[i][c]
  {
    if rows != [] {
      ColumnOfSpec(rows[1..], c);
      forall i | 1 <= i < |rows|
        ensures ColumnOf(rows, c)[i] == rows[i][c]
      {
        assert rows[1..][i - 1] == rows[i];
      }
    }
  }

  /** The sheet with every cell stripped, as `column_data.str.strip()`
      gives each searched column. */
  function StrippedSheet(t: RefTable): (r: RefTable)
    ensures r.width == t.width && |r.rows| == |t.rows|
  {
    Sheet(t.width, StripRows(t.rows))
  }

  /** Every cell of every row stripped. */
  function StripRows(rows: seq<seq<string>>): (r: seq<seq<string>>)
    ensures |r| == |rows|
    ensures forall i :: 0 <= i < |r| ==> |r[i]| == |rows[i]|
  {
    if rows == [] then [] else [StripCells(rows[0])] + StripRows(rows[1..])
  }

  /** Every cell of one row stripped. */
  function StripCells(row: seq<string>): (r: seq<string>)
    ensures |r| == |row|
  {
    if row == [] then [] else [Strip(row[0])] + StripCells(row[1..])
  }

  /** `v` equals the (stripped) cell of a searched column `c` (never
      column 0) in row `i`. */
  predicate ColumnHit(t: RefTable, v: string, c: nat, i: nat) {
    1 <= c < t.width && i < |t.rows| && t.rows[i][c] == v
  }

  /** Candidate `phases[p]` hits column `c` in row `i`. */
  predicate IsHit(t: RefTable, phases: seq<string>, p: nat, c: nat, i: nat) {
    p < |phases| && ColumnHit(t, phases[p], c, i)
  }

  /** A position of the cascade: phase, then column, then row. */
  datatype Hit = Hit(phase: nat, col: nat, row: nat)

  /** No hit from phase `p` on comes before `h` in cascade order: an
      earlier phase, then an earlier column, then an earlier row. */
  ghost predicate NoEarlierHit(t: RefTable, phases: seq<string>, p: nat, h: Hit) {
    && (forall q: nat, k: nat, i: nat :: p <= q < h.phase ==> !IsHit(t, phases, q, k, i))
    && (forall k: nat, i: nat :: k < h.col ==> !IsHit(t, phases, h.phase, k, i))
    && (forall i: nat :: i < h.row ==> !IsHit(t, phases, h.phase, h.col, i))
  }

  /** The first exact hit of `v` in columns `c`, `c + 1`, ... of the
      stripped sheet `t`, as (column, row). */
  function MatchInColumns(t: RefTable, v: string, c: nat): (r: Option<(nat, nat)>)
    requires 1 <= c
    decreases t.width - c
    ensures r.Some? ==> c <= r.value.0 < t.width && r.value.1 < |t.rows|
  {
    if c >= t.width then None
    else
      match FirstIndexOf(Column(t, c), v)
      case Some(i) => Some((c, i))
      case None => MatchInColumns(t, v, c + 1)
  }

  /** The first exact hit of the cascade from phase `p` on, in the
      stripped sheet `t`. */
  function MatchInPhases(t: RefTable, phases: seq<string>, p: nat): (r: Option<Hit>)
    decreases |phases| - p
    ensures r.Some? ==> p <= r.value.phase < |phases|
    ensures r.Some? ==> 1 <= r.value.col < t.width && r.value.row < |t.rows|
  {
    if p >= |phases| then None
    else
      match MatchInColumns(t, phases[p], 1)
      case Some((c, i)) => Some(Hit(p, c, i))
      case None => MatchInPhases(t, phases, p + 1)
  }

  // ---------------------------------------------------------------------
  // Fuzzy fallback

  /** The first position of a maximal score: Python's `max` keeps the first
      of equal keys. */
  function TopIndex(query: string, vs: seq<string>, score: Scorer): (k: nat)
    requires vs != []
    ensures k < |vs|
  {
    if |vs| == 1 then 0
    else
      var k := TopIndex(query, vs[..|vs| - 1], score);
      if score(query, vs[|vs| - 1]) > score(query, vs[k]) then |vs| - 1 else k
  }

  /** `process.extractOne(query, choices, scorer=...)`: the first
      best-scoring choice with its score, or `None` for no choices. */
  function ExtractOne(query: string, choices: seq<string>, score: Scorer): (r: Option<(string, Score)>)
    ensures r.None? <==> choices == []
    ensures r.Some? ==> r.value.0 in choices && r.value.1 == score(query, r.value.0)
  {
    if choices == [] then None
    else
      var k := TopIndex(query, choices, score);
      Some((choices[k], score(query, choices[k])))
  }

  /** `city_id_df[col].eq(best_match).idxmax()`: the first row holding
      `m` in column `c`. */
  function RowOf(t: RefTable, c: nat, m: string): (i: nat)
    requires c < t.width && m in Column(t, c)
    ensures i < |t.rows| && t.rows[i][c] == m
  {
    // idxmax of an all-False series would give 0; m comes from the column
    ColumnSpec(t, c);
    FirstIndexOf(Column(t, c), m).GetOr(0)
  }

  /** What name column `c` offers the fuzzy loop: its best match, that
      match's score and the City Id of the first row holding the match. */
  datatype Candidate = Candidate(text: string, ratio: Score, cityId: string)

  /** The candidate of name column `c`; `None` where `extractOne` finds no
      choices, unpacking its result raises and the column is skipped. */
  function ColumnCandidate(t: RefTable, name: string, score: Scorer, c: nat): Option<Candidate>
    requires c < t.width
  {
    match ExtractOne(name, Column(t, c), score)
    case None => None
    case Some((m, s)) => Some(Candidate(m, s, t.rows[RowOf(t, c, m)][0]))
  }

  /** One past the last searched column: `columns[1:]` is empty when the
      sheet has fewer than two columns. */
  function EndColumn(t: RefTable): (e: nat)
    ensures 1 <= e && (e <= t.width || e == 1)
  {
    if t.width == 0 then 1 else t.width
  }

  /** The candidates of name columns 1 .. c-1, in column order. */
  function CandidatesUpTo(t: RefTable, name: string, score: Scorer, c: nat): (r: seq<Option<Candidate>>)
    requires 1 <= c && (c <= t.width || c == 1)
    decreases c
    ensures |r| == c - 1
  {
    if c == 1 then []
    else CandidatesUpTo(t, name, score, c - 1) + [ColumnCandidate(t, name, score, c - 1)]
  }

  /** The candidates of every name column: entry `j` is column `j + 1`. */
  function Candidates(t: RefTable, name: string, score: Scorer): (r: seq<Option<Candidate>>)
    ensures |r| == EndColumn(t) - 1
  {
    CandidatesUpTo(t, name, score, EndColumn(t))
  }

  /** The score a candidate competes with; a skipped column never beats
      the running best, which starts at 0. */
  function Ratio(o: Option<Candidate>): (s: int)
    ensures 0 <= s <= 100
  {
    match o
    case None => 0
    case Some(x) => x.ratio
  }

  /** The accumulators `best_match`, `best_score`, `best_city_id`; `None`
      stands for unbound. */
  datatype Fuzzy = Fuzzy(bestMatch: Option<string>, bestScore: int, bestCityId: Option<string>)

  /** The accumulators before the fuzzy loop: `best_match, best_score =
      None, 0`, `best_city_id` unbound. */
  const Unscored := Fuzzy(None, 0, None)

  /** The accumulators once candidate `x` has been taken as the best. */
  function Adopt(x: Candidate): Fuzzy {
    Fuzzy(Some(x.text), x.ratio, Some(x.cityId))
  }

  /** One iteration of the fuzzy loop: only a strictly greater score
      replaces the running best. */
  function Step(acc: Fuzzy, o: Option<Candidate>): Fuzzy {
    match o
    case None => acc
    case Some(x) => if x.ratio > acc.bestScore then Adopt(x) else acc
  }

  /** The accumulators after the fuzzy loop has visited `cands` in order:
      the score stays within 0 .. 100, and the match and the City Id are
      bound exactly when some column scored above 0. */
  function Scan(cands: seq<Option<Candidate>>): (r: Fuzzy)
    ensures 0 <= r.bestScore <= 100
    ensures r.bestCityId.Some? <==> r.bestScore > 0
    ensures r.bestMatch.Some? <==> r.bestScore > 0
  {
    if cands == [] then Unscored
    else Step(Scan(cands[..|cands| - 1]), cands[|cands| - 1])
  }

  /** The tail of `find_city_id` once no exact hit was found:
      `if best_score >= threshold: return best_city_id`. */
  function FuzzyOutcome(t: RefTable, name: string, threshold: int, score: Scorer): (r: Outcome)
    ensures r != DataNotLoaded
  {
    var acc := Scan(Candidates(t, name, score));
    if acc.bestScore >= threshold then
      match acc.bestCityId
      case Some(id) => CityId(id)
      case None => UnboundLocalError
    else NotFound
  }

  // ---------------------------------------------------------------------
  // The whole resolution

  /** `find_city_id(contractor_name, threshold)` against the loaded sheet
      (`None` when `load_city_id_data` failed or never ran). */
  function Resolve(table: Option<RefTable>, name: string, threshold: int, score: Scorer): (r: Outcome)
    ensures r == DataNotLoaded <==> table.None?
    ensures r == UnboundLocalError ==> threshold <= 0
  {
    match table
    case None => DataNotLoaded
    case Some(t) =>
      match MatchInPhases(StrippedSheet(t), SearchPhases(name), 0)
      case Some(h) => CityId(t.rows[h.row][0])
      case None => FuzzyOutcome(t, name, threshold, score)
  }

  /** The exact-match loops of `find_city_id` over the stripped sheet:
      phases outermost, then the searched columns; the first column holding
      the candidate gives its first such row. */
  method ExactCascade(stripped: RefTable, phases: seq<string>) returns (hit: Option<Hit>)
    ensures hit == MatchInPhases(stripped, phases, 0)
  {
    var p := 0;
    while p < |phases|
      invariant 0 <= p <= |phases|
      invariant MatchInPhases(stripped, phases, 0) == MatchInPhases(stripped, phases, p)
    {
      var found := ExactInColumns(stripped, phases[p]);
      if found.Some? {
        return Some(Hit(p, found.value.0, found.value.1));
      }
      p := p + 1;
    }
    return None;
  }

  /** The column loop of one phase: columns 1, 2, ... in order; the first
      column holding `phase` gives its first such row as (column, row). */
  method ExactInColumns(stripped: RefTable, phase: string) returns (found: Option<(nat, nat)>)
    ensures found == MatchInColumns(stripped, phase, 1)
  {
    var c := 1;
    while c < stripped.width
      invariant 1 <= c && (c <= stripped.width || c == 1)
      invariant MatchInColumns(stripped, phase, 1) == MatchInColumns(stripped, phase, c)
    {
      var matches := FirstIndexOf(Column(stripped, c), phase);
      if matches.Some? {
        return Some((c, matches.value));
      }
      c := c + 1;
    }
    return None;
  }

  /** One pass of the fuzzy loop: `extractOne` over column `c`, replacing
      the running best only on a strictly greater score. */
  method ScoreColumn(t: RefTable, name: string, score: Scorer, c: nat,
                     bestMatch: Option<string>, bestScore: int, bestCityId: Option<string>)
    returns (bestMatch': Option<string>, bestScore': int, bestCityId': Option<string>)
    requires c < t.width
    ensures Fuzzy(bestMatch', bestScore', bestCityId')
         == Step(Fuzzy(bestMatch, bestScore, bestCityId), ColumnCandidate(t, name, score, c))
  {
    bestMatch', bestScore', bestCityId' := bestMatch, bestScore, bestCityId;
    var top := ExtractOne(name, Column(t, c), score);
    if top.Some? {
      var (m, s) := top.value;
      if s > bestScore {
        bestScore' := s;
        bestMatch' := Some(m);
        var matchIndex := RowOf(t, c, m);
        bestCityId' := Some(t.rows[matchIndex][0]);
      }
    }
  }

  /** The fuzzy loop of `find_city_id`: one `extractOne` per name column,
      keeping the first column with the strictly greatest score. */
  method FuzzyFallback(t: RefTable, name: string, score: Scorer)
    returns (bestMatch: Option<string>, bestScore: int, bestCityId: Option<string>)
    ensures Fuzzy(bestMatch, bestScore, bestCityId) == Scan(Candidates(t, name, score))
  {
    bestMatch, bestScore, bestCityId := None, 0, None;
    var c := 1;
    while c < t.width
      invariant 1 <= c && (c <= t.width || c == 1)
      invariant Fuzzy(bestMatch, bestScore, bestCityId) == Scan(CandidatesUpTo(t, name, score, c))
    {
      ghost var seen := CandidatesUpTo(t, name, score, c);
      bestMatch, bestScore, bestCityId := ScoreColumn(t, name, score, c, bestMatch, bestScore, bestCityId);
      assert CandidatesUpTo(t, name, score, c + 1) == seen + [ColumnCandidate(t, name, score, c)];
      assert (seen + [ColumnCandidate(t, name, score, c)])[..|seen|] == seen;
      c := c + 1;
    }
  }

  /** `CityIdFinder`: holds the sheet once `load_city_id_data` has read it. */
  class CityIdFinder {
    const cityIdFilePath: string
    const cityIdSheetName: string
    var cityIdDf: Option<RefTable>

    constructor (cityIdFilePath: string, cityIdSheetName: string := "City Id Hub")
      ensures this.cityIdFilePath == cityIdFilePath && this.cityIdSheetName == cityIdSheetName
      ensures cityIdDf == None
    {
      this.cityIdFilePath := cityIdFilePath;
      this.cityIdSheetName := cityIdSheetName;
      cityIdDf := None;
    }

    /** `load_city_id_data`: `read` is what `pd.read_excel` produced, or
        `None` when it raised. */
    method LoadCityIdData(read: Option<RefTable>)
      modifies this
      ensures cityIdDf == read
    {
      cityIdDf := read;
    }

    /** `find_city_id`: the phase and column loops of the exact cascade,
        then the fuzzy loop over the name columns. */
    method FindCityId(contractorName: string, score: Scorer, threshold: int := 75) returns (r: Outcome)
      ensures r == Resolve(cityIdDf, contractorName, threshold, score)
    {
      if cityIdDf.None? {
        return DataNotLoaded;
      }
      var t := cityIdDf.value;
      var stripped := StrippedSheet(t);
      var phases := SearchPhases(contractorName);
      var exact := ExactCascade(stripped, phases);
      if exact.Some? {
        return CityId(t.rows[exact.value.row][0]);
      }

      var bestMatch, bestScore, bestCityId := FuzzyFallback(t, contractorName, score);
      if bestScore >= threshold {
        if bestCityId.None? {
          r := UnboundLocalError;
        } else {
          r := CityId(bestCityId.value);
        }
      } else {
        r := NotFound;
      }
      assert r == FuzzyOutcome(t, contractorName, threshold, score);
    }
  }
}
