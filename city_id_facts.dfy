/** What `find_city_id` guarantees, proved about the functions of module
    `CityIds`: the shape of the five search phases, the order of the exact
    cascade, the fuzzy fallback's first-best rule, the threshold, and that
    every City Id it returns comes from column 0 of the sheet. */
module CityIdFacts {
  import opened Wrappers
  import opened PyStr
  import opened CityIds
  import opened Seqs

  // ---------------------------------------------------------------------
  // Search phases

  /** The base form (phase 2) has no `(` and no surrounding whitespace. */
  lemma BaseFormShape(name: string)
    ensures '(' !in BaseForm(name)
    ensures Trimmed(BaseForm(name))
  {
    var head := BeforeFirst(name, '(');
    var trimmed := TrimEnd(head, '.');
    BeforeFirstSpec(name, '(');
    TrimEndSpec(head, '.');
    PrefixMembers(trimmed, head);
    StripSpec(trimmed);
  }

  /** Phase 1 is the raw name; phases 3 to 5 are derived from the base form
      (phase 2): without commas, without periods, and cut at the first comma.
      No phase after the first holds `(`; phases 3 and 5 hold no `,`,
      phase 4 no `.`. */
  lemma SearchPhasesShape(name: string)
    ensures var r := SearchPhases(name);
      && r[0] == name
      && r[1] == BaseForm(name)
      && r[2] == RemoveAll(r[1], ',') && r[3] == RemoveAll(r[1], '.')
      && r[4] == Strip(BeforeFirst(r[1], ','))
      && (forall k :: 1 <= k < 5 ==> '(' !in r[k])
      && ',' !in r[2] && '.' !in r[3] && ',' !in r[4]
      && Trimmed(r[1]) && Trimmed(r[4])
  {
    var base := BaseForm(name);
    BaseFormShape(name);
    RemoveAllSpec(base, ',');
    RemoveAllSpec(base, '.');
    var head := BeforeFirst(base, ',');
    BeforeFirstSpec(base, ',');
    PrefixMembers(head, base);
    StripSpec(head);
  }

  /** A name that is already trimmed and holds no `(`, `,` or `.` is
      searched for five times as it is. */
  lemma PhasesOfPlainName(name: string)
    requires '(' !in name && ',' !in name && '.' !in name
    requires Trimmed(name)
    ensures SearchPhases(name) == [name, name, name, name, name]
  {
    BeforeFirstAbsent(name, '(');
    if name != [] {
      assert name[|name| - 1] in name;
    }
    TrimEndAbsent(name, '.');
    StripTrimmed(name);
    RemoveAllAbsent(name, ',');
    RemoveAllAbsent(name, '.');
    BeforeFirstAbsent(name, ',');
  }

  /** `rstrip('.')` runs before `strip()`: in "Ace Co. (old)"
      the period is followed by a space when `rstrip('.')` looks at it, so
      the base form keeps it and only phase 4 drops it. */
  lemma TrailingPeriodSurvives(name: string)
    requires name == "Ace Co. (old)"
    ensures BaseForm(name) == "Ace Co."
    ensures SearchPhases(name) == [name, "Ace Co.", "Ace Co.", "Ace Co", "Ace Co."]
  {
    var head := "Ace Co. ";
    AceCoHead(name, head);
    TrimEndAbsent(head, '.');
    AceCoStrip(head);
    AceCoNoDots("Ace Co.");
    AceCoNoComma("Ace Co.");
  }

  lemma AceCoNoComma(base: string)
    requires base == "Ace Co."
    ensures RemoveAll(base, ',') == base
    ensures Strip(BeforeFirst(base, ',')) == base
  {
    assert ',' !in base;
    RemoveAllAbsent(base, ',');
    BeforeFirstAbsent(base, ',');
    assert Trimmed(base) by {
      assert base[0] == 'A' && base[|base| - 1] == '.';
    }
    StripTrimmed(base);
  }

  lemma AceCoHead(name: string, head: string)
    requires name == "Ace Co. (old)" && head == "Ace Co. "
    ensures BeforeFirst(name, '(') == head
  {
    assert name == head + ['('] + "old)";
    BeforeFirstAt(head, '(', "old)");
  }

  lemma AceCoStrip(head: string)
    requires head == "Ace Co. "
    ensures Strip(head) == "Ace Co."
  {
    assert StripStart(head) == head;
    assert head[..|head| - 1] == "Ace Co.";
    assert StripEnd(head) == StripEnd("Ace Co.") == "Ace Co.";
  }

  lemma AceCoNoDots(base: string)
    requires base == "Ace Co."
    ensures RemoveAll(base, '.') == "Ace Co"
  {
    assert base == "Ace Co" + ".";
    RemoveAllAppend("Ace Co", ".", '.');
    RemoveAllAbsent("Ace Co", '.');
    assert RemoveAll(".", '.') == [];
  }

  // ---------------------------------------------------------------------
  // Exact cascade

  /** The column scan returns a hit, and no hit in an earlier column, or
      earlier in the same column, is passed over. */
  lemma {:induction false} MatchInColumnsFirst(t: RefTable, v: string, c: nat)
    requires 1 <= c
    decreases t.width - c
    ensures var r := MatchInColumns(t, v, c);
      && (r.Some? ==> ColumnHit(t, v, r.value.0, r.value.1))
      && (forall k: nat, i: nat :: c <= k && ColumnHit(t, v, k, i) ==>
            r.Some? && (r.value.0 < k || (r.value.0 == k && r.value.1 <= i)))
  {
    if c < t.width {
      var col := Column(t, c);
      ColumnSpec(t, c);
      FirstIndexOfIsFirst(col, v);
      forall i: nat | ColumnHit(t, v, c, i)
        ensures v in col
      {
        assert col[i] == v;
      }
      if FirstIndexOf(col, v).None? {
        MatchInColumnsFirst(t, v, c + 1);
      }
    }
  }

  /** The cascade returns a hit, and no hit that comes before it (earlier
      phase, then earlier column, then earlier row) is passed over; it finds
      nothing only when there is nothing to find. */
  lemma {:induction false} MatchInPhasesFirst(t: RefTable, phases: seq<string>, p: nat)
    decreases |phases| - p
    ensures var r := MatchInPhases(t, phases, p);
      && (r.Some? ==> IsHit(t, phases, r.value.phase, r.value.col, r.value.row))
      && (r.Some? ==> NoEarlierHit(t, phases, p, r.value))
      && (r.None? ==> forall q: nat, k: nat, i: nat :: p <= q ==> !IsHit(t, phases, q, k, i))
  {
    if p < |phases| {
      MatchInColumnsFirst(t, phases[p], 1);
      if MatchInColumns(t, phases[p], 1).None? {
        MatchInPhasesFirst(t, phases, p + 1);
      }
    }
  }

  lemma {:induction false} StripCellsSpec(row: seq<string>)
    ensures forall c :: 0 <= c < |row| ==> StripCells(row)[c] == Strip(row[c])
  {
    if row != [] {
      StripCellsSpec(row[1..]);
    }
  }

  lemma {:induction false} StripRowsSpec(rows: seq<seq<string>>)
    ensures forall i, c :: 0 <= i < |rows| && 0 <= c < |rows[i]| ==> StripRows(rows)[i][c] == Strip(rows[i][c])
  {
    if rows != [] {
      StripCellsSpec(rows[0]);
      StripRowsSpec(rows[1..]);
    }
  }

  /** Each cell of the stripped sheet is the original cell, stripped. */
  lemma StrippedSheetCells(t: RefTable)
    ensures forall i, c :: 0 <= i < |t.rows| && 0 <= c < t.width ==>
              StrippedSheet(t).rows[i][c] == Strip(t.rows[i][c])
  {
    StripRowsSpec(t.rows);
  }

  /** Candidate `phases[q]` equals the stripped cell in row `i` of name
      column `k` of the loaded sheet: `column_data.str.strip().eq(...)`. */
  predicate RawHit(t: RefTable, phases: seq<string>, q: nat, k: nat, i: nat) {
    q < |phases| && 1 <= k < t.width && i < |t.rows| && Strip(t.rows[i][k]) == phases[q]
  }

  /** `a` is tried before `b`: earlier phase, then earlier column, then
      earlier row. This is the order of `CityIds.NoEarlierHit`, written
      pairwise so that it can be stated over the raw hits. */
  predicate Before(a: Hit, b: Hit) {
    a.phase < b.phase
    || (a.phase == b.phase && a.col < b.col)
    || (a.phase == b.phase && a.col == b.col && a.row < b.row)
  }

  lemma HitsAgree(t: RefTable, phases: seq<string>)
    ensures forall q: nat, k: nat, i: nat ::
              IsHit(StrippedSheet(t), phases, q, k, i) <==> RawHit(t, phases, q, k, i)
  {
    StrippedSheetCells(t);
  }

  /** The first hit of the cascade decides: its row's City Id is returned,
      whatever the scorer and the threshold. */
  lemma ExactMatchWins(t: RefTable, name: string, h: Hit, threshold: int, score: Scorer)
    requires RawHit(t, SearchPhases(name), h.phase, h.col, h.row)
    requires forall q: nat, k: nat, i: nat :: Before(Hit(q, k, i), h) ==> !RawHit(t, SearchPhases(name), q, k, i)
    ensures MatchInPhases(StrippedSheet(t), SearchPhases(name), 0) == Some(h)
    ensures Resolve(Some(t), name, threshold, score) == CityId(t.rows[h.row][0])
  {
    var phases := SearchPhases(name);
    var s := StrippedSheet(t);
    HitsAgree(t, phases);
    MatchInPhasesFirst(s, phases, 0);
    assert IsHit(s, phases, h.phase, h.col, h.row);
    var g := MatchInPhases(s, phases, 0).value;
    assert RawHit(t, phases, g.phase, g.col, g.row);
    assert !Before(g, h);
    assert !Before(h, g);
    assert g == h;
  }

  /** With no phase hitting a name column, the answer is the fuzzy fallback's. */
  lemma NoExactHitFallsBack(t: RefTable, name: string, threshold: int, score: Scorer)
    requires forall q: nat, k: nat, i: nat :: !RawHit(t, SearchPhases(name), q, k, i)
    ensures Resolve(Some(t), name, threshold, score) == FuzzyOutcome(t, name, threshold, score)
  {
    var phases := SearchPhases(name);
    HitsAgree(t, phases);
    MatchInPhasesFirst(StrippedSheet(t), phases, 0);
  }

  /** Two sheets that agree on every name column (all but column 0). */
  predicate SameNameColumns(t1: RefTable, t2: RefTable) {
    && t1.width == t2.width && |t1.rows| == |t2.rows|
    && forall i, c :: 0 <= i < |t1.rows| && 1 <= c < t1.width ==> t1.rows[i][c] == t2.rows[i][c]
  }

  /** Sheets with the same hits reach the same first hit. */
  lemma SameHitsSameMatch(s1: RefTable, s2: RefTable, phases: seq<string>)
    requires forall q: nat, k: nat, i: nat :: IsHit(s1, phases, q, k, i) <==> IsHit(s2, phases, q, k, i)
    ensures MatchInPhases(s1, phases, 0) == MatchInPhases(s2, phases, 0)
  {
    MatchInPhasesFirst(s1, phases, 0);
    MatchInPhasesFirst(s2, phases, 0);
    var r1, r2 := MatchInPhases(s1, phases, 0), MatchInPhases(s2, phases, 0);
    if r1.Some? && r2.Some? {
      var h1, h2 := r1.value, r2.value;
      assert IsHit(s2, phases, h1.phase, h1.col, h1.row);
      assert IsHit(s1, phases, h2.phase, h2.col, h2.row);
      assert h1.phase == h2.phase;
      assert h1.col == h2.col;
      assert h1.row == h2.row;
    } else if r1.Some? {
      assert IsHit(s2, phases, r1.value.phase, r1.value.col, r1.value.row);
    }
  }

  /** Column 0 is never searched: sheets that differ only in their City
      Ids reach the same exact hit. */
  lemma IdColumnNeverSearched(t1: RefTable, t2: RefTable, phases: seq<string>)
    requires SameNameColumns(t1, t2)
    ensures MatchInPhases(StrippedSheet(t1), phases, 0) == MatchInPhases(StrippedSheet(t2), phases, 0)
  {
    var s1, s2 := StrippedSheet(t1), StrippedSheet(t2);
    StrippedSheetCells(t1);
    StrippedSheetCells(t2);
    forall q: nat, k: nat, i: nat
      ensures IsHit(s1, phases, q, k, i) <==> IsHit(s2, phases, q, k, i)
    {
      if 1 <= k < t1.width && i < |t1.rows| {
        assert s1.rows[i][k] == s2.rows[i][k];
      }
    }
    SameHitsSameMatch(s1, s2, phases);
  }


  // ---------------------------------------------------------------------
  // Fuzzy fallback

  /** `TopIndex` is the first position of the greatest score. */
  lemma {:induction false} TopIndexIsFirstMax(query: string, vs: seq<string>, score: Scorer)
    requires vs != []
    ensures var k := TopIndex(query, vs, score);
      && (forall j :: 0 <= j < |vs| ==> score(query, vs[j]) <= score(query, vs[k]))
      && (forall j :: 0 <= j < k ==> score(query, vs[j]) < score(query, vs[k]))
  {
    if |vs| > 1 {
      var init := vs[..|vs| - 1];
      TopIndexIsFirstMax(query, init, score);
      assert forall j :: 0 <= j < |init| ==> vs[j] == init[j];
    }
  }

  /** `extractOne` returns a best-scoring choice, and no earlier choice
      scores as much. */
  lemma ExtractOneBest(query: string, choices: seq<string>, score: Scorer)
    ensures var r := ExtractOne(query, choices, score);
      r.Some? ==>
        && (forall j :: 0 <= j < |choices| ==> score(query, choices[j]) <= r.value.1)
        && (exists k :: 0 <= k < |choices| && choices[k] == r.value.0
                        && forall j :: 0 <= j < k ==> score(query, choices[j]) < r.value.1)
  {
    if choices != [] {
      TopIndexIsFirstMax(query, choices, score);
    }
  }

  /** Is `id` a City Id of `t`, i.e. in column 0 of some row? */
  predicate IsCityIdOf(t: RefTable, id: string) {
    exists i :: 0 <= i < |t.rows| && 0 < t.width && t.rows[i][0] == id
  }

  /** Name column `c` offers the loop nothing exactly when the sheet has no
      rows; otherwise a value of the column and that value's score. */
  lemma ColumnCandidateShape(t: RefTable, name: string, score: Scorer, c: nat)
    requires c < t.width
    ensures var o := ColumnCandidate(t, name, score, c);
      && (o.None? <==> |t.rows| == 0)
      && (o.Some? ==> o.value.ratio == score(name, o.value.text) && o.value.text in Column(t, c))
  {
  }

  /** The value column `c` offers scores at least as much as every value
      of the column. */
  lemma ColumnCandidateIsBest(t: RefTable, name: string, score: Scorer, c: nat)
    requires c < t.width
    ensures var o := ColumnCandidate(t, name, score, c);
      o.Some? ==> forall i :: 0 <= i < |t.rows| ==> score(name, t.rows[i][c]) <= o.value.ratio
  {
    var col := Column(t, c);
    ExtractOneBest(name, col, score);
    ColumnSpec(t, c);
  }

  /** The City Id column `c` offers is the one of the first row holding
      the offered value. */
  lemma ColumnCandidateRow(t: RefTable, name: string, score: Scorer, c: nat)
    requires c < t.width
    ensures var o := ColumnCandidate(t, name, score, c);
      o.Some? ==> exists i :: 0 <= i < |t.rows| && t.rows[i][c] == o.value.text
                              && t.rows[i][0] == o.value.cityId
                              && forall j :: 0 <= j < i ==> t.rows[j][c] != o.value.text
  {
    var col := Column(t, c);
    match ExtractOne(name, col, score)
    case None =>
    case Some((m, _)) =>
      FirstIndexOfIsFirst(col, m);
      ColumnSpec(t, c);
      var i := RowOf(t, c, m);
  }

  /** The City Id column `c` offers is in column 0 of the sheet. */
  lemma ColumnCandidateId(t: RefTable, name: string, score: Scorer, c: nat)
    requires c < t.width
    ensures var o := ColumnCandidate(t, name, score, c);
      o.Some? ==> IsCityIdOf(t, o.value.cityId)
  {
    match ExtractOne(name, Column(t, c), score)
    case None =>
    case Some((m, _)) =>
      var i := RowOf(t, c, m);
      assert t.rows[i][0] == ColumnCandidate(t, name, score, c).value.cityId;
  }

  /** Visiting one more candidate is one more step of the loop. */
  lemma ScanSnoc(cs: seq<Option<Candidate>>, o: Option<Candidate>)
    ensures Scan(cs + [o]) == Step(Scan(cs), o)
  {
    assert (cs + [o])[..|cs|] == cs;
  }

  /** The running best is at least every candidate's score. */
  lemma {:induction false} ScanIsMax(cs: seq<Option<Candidate>>)
    ensures forall k :: 0 <= k < |cs| ==> Ratio(cs[k]) <= Scan(cs).bestScore
  {
    if cs != [] {
      var init := cs[..|cs| - 1];
      ScanIsMax(init);
      assert forall k :: 0 <= k < |init| ==> cs[k] == init[k];
    }
  }

  /** A positive running best is one candidate taken whole: its match,
      its score and its City Id. */
  lemma {:induction false} ScanFromCandidate(cs: seq<Option<Candidate>>)
    ensures Scan(cs).bestScore > 0 ==>
              exists k :: 0 <= k < |cs| && cs[k].Some? && Scan(cs) == Adopt(cs[k].value)
  {
    if cs != [] {
      var init := cs[..|cs| - 1];
      ScanFromCandidate(init);
      if Scan(cs) != Scan(init) {
        assert Scan(cs) == Adopt(cs[|cs| - 1].value);
      } else if Scan(cs).bestScore > 0 {
        var k :| 0 <= k < |init| && init[k].Some? && Scan(init) == Adopt(init[k].value);
        assert cs[k] == init[k];
      }
    }
  }

  /** Ties go to the first: the first candidate with the greatest score is
      the one the loop keeps. */
  lemma {:induction false} ScanKeepsFirstBest(cs: seq<Option<Candidate>>, k: nat)
    requires k < |cs| && cs[k].Some? && Ratio(cs[k]) > 0
    requires forall j :: 0 <= j < k ==> Ratio(cs[j]) < Ratio(cs[k])
    requires forall j :: k < j < |cs| ==> Ratio(cs[j]) <= Ratio(cs[k])
    ensures Scan(cs) == Adopt(cs[k].value)
  {
    var init := cs[..|cs| - 1];
    assert forall j :: 0 <= j < |init| ==> cs[j] == init[j];
    if k == |cs| - 1 {
      ScanFromCandidate(init);
      if Scan(init).bestScore > 0 {
        var j :| 0 <= j < |init| && init[j].Some? && Scan(init) == Adopt(init[j].value);
        assert Ratio(cs[j]) < Ratio(cs[k]);
      }
    } else {
      ScanKeepsFirstBest(init, k);
    }
  }

  /** Entry `j` of the candidate list is name column `j + 1`. */
  lemma {:induction false} CandidatesUpToAt(t: RefTable, name: string, score: Scorer, c: nat, j: nat)
    requires 1 <= c && (c <= t.width || c == 1)
    requires j < c - 1
    decreases c
    ensures CandidatesUpTo(t, name, score, c)[j] == ColumnCandidate(t, name, score, j + 1)
  {
    var seen := CandidatesUpTo(t, name, score, c - 1);
    assert CandidatesUpTo(t, name, score, c) == seen + [ColumnCandidate(t, name, score, c - 1)];
    if j < c - 2 {
      CandidatesUpToAt(t, name, score, c - 1, j);
    }
  }

  /** Entry `j` of the candidate list is name column `j + 1`. */
  lemma EntryAt(t: RefTable, name: string, score: Scorer, j: nat)
    requires j < |Candidates(t, name, score)|
    ensures j + 1 < t.width && Candidates(t, name, score)[j] == ColumnCandidate(t, name, score, j + 1)
  {
    CandidatesUpToAt(t, name, score, EndColumn(t), j);
  }

  /** Name column `c` is entry `c - 1` of the candidate list. */
  lemma ColumnEntry(t: RefTable, name: string, score: Scorer, c: nat)
    requires 1 <= c < t.width
    ensures c - 1 < |Candidates(t, name, score)|
    ensures Candidates(t, name, score)[c - 1] == ColumnCandidate(t, name, score, c)
  {
    var j := c - 1;
    EntryAt(t, name, score, j);
    assert j + 1 == c;
  }

  /** Every entry of the candidate list is its column's candidate. */
  lemma CandidatesAt(t: RefTable, name: string, score: Scorer)
    ensures var cs := Candidates(t, name, score);
      forall j :: 0 <= j < |cs| ==> j + 1 < t.width && cs[j] == ColumnCandidate(t, name, score, j + 1)
  {
    forall j | 0 <= j < |Candidates(t, name, score)|
      ensures j + 1 < t.width && Candidates(t, name, score)[j] == ColumnCandidate(t, name, score, j + 1)
    {
      EntryAt(t, name, score, j);
    }
  }

  /** The fuzzy best score is at least the score of every name column. */
  lemma FuzzyBestIsMax(t: RefTable, name: string, score: Scorer, c: nat)
    requires 1 <= c < t.width
    ensures Ratio(ColumnCandidate(t, name, score, c)) <= Scan(Candidates(t, name, score)).bestScore
  {
    ScanIsMax(Candidates(t, name, score));
    ColumnEntry(t, name, score, c);
  }

  /** The column-order conditions of `FirstBestColumnWins`, read on the
      candidate list: entry `k - 1` is column `k`, earlier entries score
      less and later ones no more. */
  lemma FirstBestCandidate(t: RefTable, name: string, score: Scorer, k: nat)
    requires 1 <= k < t.width
    requires forall j :: 1 <= j < k ==>
               Ratio(ColumnCandidate(t, name, score, j)) < Ratio(ColumnCandidate(t, name, score, k))
    requires forall j :: k < j < t.width ==>
               Ratio(ColumnCandidate(t, name, score, j)) <= Ratio(ColumnCandidate(t, name, score, k))
    ensures var cs := Candidates(t, name, score);
      && k - 1 < |cs| && cs[k - 1] == ColumnCandidate(t, name, score, k)
      && (forall j :: 0 <= j < k - 1 ==> Ratio(cs[j]) < Ratio(cs[k - 1]))
      && (forall j :: k - 1 < j < |cs| ==> Ratio(cs[j]) <= Ratio(cs[k - 1]))
  {
    ColumnEntry(t, name, score, k);
    EarlierEntriesLess(t, name, score, k);
    LaterEntriesNoMore(t, name, score, k);
  }

  /** Columns before `k` scoring less than `k` are entries before `k - 1`
      scoring less than entry `k - 1`. */
  lemma EarlierEntriesLess(t: RefTable, name: string, score: Scorer, k: nat)
    requires 1 <= k < t.width
    requires forall j :: 1 <= j < k ==>
               Ratio(ColumnCandidate(t, name, score, j)) < Ratio(ColumnCandidate(t, name, score, k))
    ensures k - 1 < |Candidates(t, name, score)|
    ensures forall j :: 0 <= j < k - 1 ==>
              Ratio(Candidates(t, name, score)[j]) < Ratio(Candidates(t, name, score)[k - 1])
  {
    ColumnEntry(t, name, score, k);
    forall j | 0 <= j < k - 1
      ensures Ratio(Candidates(t, name, score)[j]) < Ratio(Candidates(t, name, score)[k - 1])
    {
      EntryAt(t, name, score, j);
    }
  }

  /** Columns after `k` scoring no more than `k` are entries after `k - 1`
      scoring no more than entry `k - 1`. */
  lemma LaterEntriesNoMore(t: RefTable, name: string, score: Scorer, k: nat)
    requires 1 <= k < t.width
    requires forall j :: k < j < t.width ==>
               Ratio(ColumnCandidate(t, name, score, j)) <= Ratio(ColumnCandidate(t, name, score, k))
    ensures k - 1 < |Candidates(t, name, score)|
    ensures forall j :: k - 1 < j < |Candidates(t, name, score)| ==>
              Ratio(Candidates(t, name, score)[j]) <= Ratio(Candidates(t, name, score)[k - 1])
  {
    ColumnEntry(t, name, score, k);
    forall j | k - 1 < j < |Candidates(t, name, score)|
      ensures Ratio(Candidates(t, name, score)[j]) <= Ratio(Candidates(t, name, score)[k - 1])
    {
      EntryAt(t, name, score, j);
    }
  }

  /** The first name column with the greatest positive score supplies the
      fuzzy match, its score and its City Id; later columns that only tie
      do not replace it. */
  lemma FirstBestColumnWins(t: RefTable, name: string, score: Scorer, k: nat)
    requires 1 <= k < t.width
    requires ColumnCandidate(t, name, score, k).Some? && Ratio(ColumnCandidate(t, name, score, k)) > 0
    requires forall j :: 1 <= j < k ==>
               Ratio(ColumnCandidate(t, name, score, j)) < Ratio(ColumnCandidate(t, name, score, k))
    requires forall j :: k < j < t.width ==>
               Ratio(ColumnCandidate(t, name, score, j)) <= Ratio(ColumnCandidate(t, name, score, k))
    ensures Scan(Candidates(t, name, score)) == Adopt(ColumnCandidate(t, name, score, k).value)
  {
    FirstBestCandidate(t, name, score, k);
    ScanKeepsFirstBest(Candidates(t, name, score), k - 1);
  }

  /** The fuzzy City Id, once bound, is in column 0 of the sheet: it is
      the City Id of the column that supplied the best score. */
  lemma FuzzyIdFromSheet(t: RefTable, name: string, score: Scorer)
    ensures var acc := Scan(Candidates(t, name, score));
      acc.bestCityId.Some? ==> IsCityIdOf(t, acc.bestCityId.value)
  {
    var cs := Candidates(t, name, score);
    ScanFromCandidate(cs);
    if Scan(cs).bestScore > 0 {
      var k :| 0 <= k < |cs| && cs[k].Some? && Scan(cs) == Adopt(cs[k].value);
      EntryCityId(t, name, score, k);
    }
  }

  /** The City Id an entry of the candidate list offers is in column 0. */
  lemma EntryCityId(t: RefTable, name: string, score: Scorer, j: nat)
    requires j < |Candidates(t, name, score)|
    ensures var o := Candidates(t, name, score)[j];
      o.Some? ==> IsCityIdOf(t, o.value.cityId)
  {
    EntryAt(t, name, score, j);
    ColumnCandidateId(t, name, score, j + 1);
  }

  /** A sheet without rows gives every column an empty choice list, so no
      column scores. */
  lemma NoRowsNoScore(t: RefTable, name: string, score: Scorer)
    requires |t.rows| == 0
    ensures Scan(Candidates(t, name, score)).bestScore == 0
  {
    var cs := Candidates(t, name, score);
    CandidatesAt(t, name, score);
    forall j | 0 <= j < |cs|
      ensures cs[j].None?
    {
      ColumnCandidateShape(t, name, score, j + 1);
    }
    ScanFromCandidate(cs);
  }

  /** The threshold boundary: the fuzzy match is accepted exactly when its
      score reaches the threshold; with a non-positive threshold and no
      scoring column Python raises instead. */
  lemma ThresholdBoundary(t: RefTable, name: string, threshold: int, score: Scorer)
    ensures var r := FuzzyOutcome(t, name, threshold, score);
      var b := Scan(Candidates(t, name, score)).bestScore;
      && (r == NotFound <==> threshold > b)
      && (r.CityId? <==> 0 < b && threshold <= b)
      && (r == UnboundLocalError <==> threshold <= b == 0)
      && (r.CityId? ==> r.id == Scan(Candidates(t, name, score)).bestCityId.value)
  {
  }

  /** Raising the threshold can only lose a fuzzy match; lowering it (while
      positive) keeps it. */
  lemma ThresholdMonotone(t: RefTable, name: string, lo: int, hi: int, score: Scorer)
    requires 0 < lo <= hi
    ensures FuzzyOutcome(t, name, lo, score) == NotFound ==> FuzzyOutcome(t, name, hi, score) == NotFound
    ensures FuzzyOutcome(t, name, hi, score).CityId? ==> FuzzyOutcome(t, name, lo, score) == FuzzyOutcome(t, name, hi, score)
  {
    ThresholdBoundary(t, name, lo, score);
    ThresholdBoundary(t, name, hi, score);
  }

  // ---------------------------------------------------------------------
  // The whole resolution

  /** No City Id is invented: every id returned is in column 0 of the
      loaded sheet. */
  lemma NoIdInvented(table: Option<RefTable>, name: string, threshold: int, score: Scorer)
    ensures var r := Resolve(table, name, threshold, score);
      r.CityId? ==> table.Some? && IsCityIdOf(table.value, r.id)
  {
    if table.Some? {
      var t := table.value;
      match MatchInPhases(StrippedSheet(t), SearchPhases(name), 0)
      case Some(h) =>
        assert t.rows[h.row][0] == Resolve(table, name, threshold, score).id;
      case None =>
        FuzzyIdFromSheet(t, name, score);
    }
  }

  /** A sheet without rows, or without a name column, finds nothing. */
  lemma EmptySheetNotFound(t: RefTable, name: string, threshold: int, score: Scorer)
    requires |t.rows| == 0 || t.width <= 1
    requires threshold > 0
    ensures Resolve(Some(t), name, threshold, score) == NotFound
  {
    var phases := SearchPhases(name);
    MatchInPhasesFirst(StrippedSheet(t), phases, 0);
    if |t.rows| == 0 {
      NoRowsNoScore(t, name, score);
    }
  }

  /** "Ace, LLC" misses in phases 1 to 4 against a sheet
      holding "Ace", and is found in phase 5 (index 4), cut at the
      comma, in name column 1 of row 0. */
  lemma AceLlcFoundInPhase5(t: RefTable, name: string, threshold: int, score: Scorer)
    requires t == Sheet(2, [["1", "Ace"]])
    requires name == "Ace, LLC"
    ensures MatchInPhases(StrippedSheet(t), SearchPhases(name), 0) == Some(Hit(4, 1, 0))
    ensures Resolve(Some(t), name, threshold, score) == CityId("1")
  {
    var cell := "Ace";
    AceLlcPhases(name, cell);
    assert Strip(t.rows[0][1]) == cell by {
      StripTrimmed(cell);
    }
    ExactMatchWins(t, name, Hit(4, 1, 0), threshold, score);
  }

  lemma AceLlcPhases(name: string, cell: string)
    requires name == "Ace, LLC" && cell == "Ace"
    ensures SearchPhases(name) == [name, name, "Ace LLC", name, cell]
  {
    AceLlcBase(name);
    AceLlcNoCommas(name, cell);
    RemoveAllAbsent(name, '.');
    AceLlcHead(name, cell);
  }

  lemma AceLlcBase(name: string)
    requires name == "Ace, LLC"
    ensures BaseForm(name) == name
  {
    BeforeFirstAbsent(name, '(');
    TrimEndAbsent(name, '.');
    StripTrimmed(name);
  }

  lemma AceLlcNoCommas(name: string, cell: string)
    requires name == "Ace, LLC" && cell == "Ace"
    ensures RemoveAll(name, ',') == "Ace LLC"
  {
    var tail := " LLC";
    assert name == cell + ([','] + tail);
    RemoveAllAppend(cell, [','] + tail, ',');
    RemoveAllAbsent(cell, ',');
    assert ([','] + tail)[1..] == tail;
    RemoveAllAbsent(tail, ',');
  }

  lemma AceLlcHead(name: string, cell: string)
    requires name == "Ace, LLC" && cell == "Ace"
    ensures Strip(BeforeFirst(name, ',')) == cell
  {
    assert name == cell + [','] + " LLC";
    BeforeFirstAt(cell, ',', " LLC");
    StripTrimmed(cell);
  }
}
