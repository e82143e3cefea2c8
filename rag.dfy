/** The context selection of the "last session" story prompt
    (`prompt_rag_flow_last_session`): one query picks the focal session
    summary, a second picks up to `n` earlier summaries, the earlier ones are
    rendered and joined, and both are placed into a fixed prompt. The
    database is a sequence of rows; each query is filter, sort, limit. */
module LastSession {
  import opened Wrappers
  import opened PyStr

  /** The `session_number` entry of a row's JSON metadata: missing, a JSON
      null, or an integer. */
  datatype SessionField = Missing | Null | Number(n: int)

  /** One row of the embedding table, with the metadata fields the queries
      read; an absent field is SQL NULL. */
  datatype Row = Row(
    collection: string,
    document: string,
    name: Option<string>,
    embeddingType: Option<string>,
    session: SessionField,
    isLatest: Option<bool>)
  {
    /** `(cmetadata->>'session_number')::INT`: a missing key and a JSON null
        both read as SQL NULL. */
    function SessionNumber(): Option<int> {
      if session.Number? then Some(session.n) else None
    }
  }

  datatype RagError =
    | NoFocalRecord        // `cur.fetchone()` returned None, so `.document` raises
    | NegativeLimit        // PostgreSQL rejects a negative LIMIT
    | MissingSessionNumber // `row.cmetadata['session_number']` on a row without one

  /** The number of earlier sessions given as context when the caller does
      not say. */
  const DefaultPreviousSessions: nat := 5

  // ---------------------------------------------------------------------------
  // Filters (WHERE)
  // ---------------------------------------------------------------------------

  /** The focal query's filter: the collection, a name `LIKE 'Session Notes%'`
      and `embedding_type = 'document'`; a NULL field never matches. */
  predicate IsSessionSummary(r: Row, collection: string) {
    && r.collection == collection
    && r.name.Some? && StartsWith(r.name.value, "Session Notes")
    && r.embeddingType == Some("document")
  }

  /** The background query's filter: the same, and `is_latest IS NULL`. */
  predicate IsEarlierSummary(r: Row, collection: string) {
    IsSessionSummary(r, collection) && r.isLatest.None?
  }

  predicate Matches(r: Row, collection: string, background: bool) {
    if background then IsEarlierSummary(r, collection) else IsSessionSummary(r, collection)
  }

  /** The positions of the matching rows, in table order. */
  function Selected(rows: seq<Row>, collection: string, background: bool): (sel: seq<nat>)
    ensures forall k :: 0 <= k < |sel| ==> sel[k] < |rows| && Matches(rows[sel[k]], collection, background)
    ensures forall i :: 0 <= i < |rows| && Matches(rows[i], collection, background) ==> i in sel
    ensures forall k, l :: 0 <= k < l < |sel| ==> sel[k] < sel[l]
  {
    if rows == [] then []
    else
      var n := |rows| - 1;
      var sel := Selected(rows[..n], collection, background);
      if Matches(rows[n], collection, background) then sel + [n] else sel
  }

  // ---------------------------------------------------------------------------
  // ORDER BY (session_number)::INT DESC
  // ---------------------------------------------------------------------------

  /** Key `a` may come before key `b` under `DESC`: PostgreSQL puts NULL
      first in a descending sort, then larger numbers before smaller. */
  predicate Before(a: Option<int>, b: Option<int>) {
    a.None? || (b.Some? && a.value >= b.value)
  }

  lemma BeforeTotal(a: Option<int>, b: Option<int>)
    ensures Before(a, b) || Before(b, a)
  {
  }

  lemma BeforeTransitive(a: Option<int>, b: Option<int>, c: Option<int>)
    requires Before(a, b) && Before(b, c)
    ensures Before(a, c)
  {
  }

  predicate ValidPositions(rows: seq<Row>, s: seq<nat>) {
    forall k :: 0 <= k < |s| ==> s[k] < |rows|
  }

  /** The positions are in `DESC NULLS FIRST` order of session number. */
  predicate SortedDesc(rows: seq<Row>, s: seq<nat>)
    requires ValidPositions(rows, s)
  {
    forall k, l :: 0 <= k < l < |s| ==> Before(rows[s[k]].SessionNumber(), rows[s[l]].SessionNumber())
  }

  /** Insert `i` after every position whose key may come before its own. */
  function Insert(rows: seq<Row>, i: nat, s: seq<nat>): (r: seq<nat>)
    requires i < |rows| && ValidPositions(rows, s)
    ensures ValidPositions(rows, r)
    ensures multiset(r) == multiset(s) + multiset{i}
  {
    if s == [] then [i]
    else if Before(rows[s[0]].SessionNumber(), rows[i].SessionNumber()) then
      assert s == [s[0]] + s[1..];
      [s[0]] + Insert(rows, i, s[1..])
    else
      [i] + s
  }

  lemma {:induction false} InsertSorted(rows: seq<Row>, i: nat, s: seq<nat>)
    requires i < |rows| && ValidPositions(rows, s)
    requires SortedDesc(rows, s)
    ensures SortedDesc(rows, Insert(rows, i, s))
  {
    if s == [] {
    } else if Before(rows[s[0]].SessionNumber(), rows[i].SessionNumber()) {
      var r' := Insert(rows, i, s[1..]);
      InsertSorted(rows, i, s[1..]);
      forall l | 0 <= l < |r'| ensures Before(rows[s[0]].SessionNumber(), rows[r'[l]].SessionNumber()) {
        assert r'[l] in multiset(r');
        if r'[l] != i {
          assert r'[l] in multiset(s[1..]);
          var m :| 0 <= m < |s[1..]| && s[1..][m] == r'[l];
          assert s[1 + m] == r'[l];
        }
      }
      assert Insert(rows, i, s) == [s[0]] + r';
    } else {
      BeforeTotal(rows[s[0]].SessionNumber(), rows[i].SessionNumber());
      forall l | 0 <= l < |s| ensures Before(rows[i].SessionNumber(), rows[s[l]].SessionNumber()) {
        if l > 0 {
          BeforeTransitive(rows[i].SessionNumber(), rows[s[0]].SessionNumber(), rows[s[l]].SessionNumber());
        }
      }
    }
  }

  /** The stable insertion sort of the selected positions. SQL leaves the
      order of equal keys open; this model keeps table order among them. */
  function SortDesc(rows: seq<Row>, s: seq<nat>): (r: seq<nat>)
    requires ValidPositions(rows, s)
    ensures ValidPositions(rows, r)
    ensures multiset(r) == multiset(s)
    ensures SortedDesc(rows, r)
  {
    if s == [] then []
    else
      var n := |s| - 1;
      assert s == s[..n] + [s[n]];
      var sorted := SortDesc(rows, s[..n]);
      InsertSorted(rows, s[n], sorted);
      Insert(rows, s[n], sorted)
  }

  /** `LIMIT limit`. */
  function Limit(s: seq<nat>, limit: nat): (r: seq<nat>)
    ensures |r| == if limit < |s| then limit else |s|
    ensures r == s[..|r|]
  {
    if limit < |s| then s[..limit] else s
  }

  // ---------------------------------------------------------------------------
  // The two queries
  // ---------------------------------------------------------------------------

  /** One query: filter, sort, limit, as positions in the table. */
  function Query(rows: seq<Row>, collection: string, background: bool, limit: int): Result<seq<nat>, RagError>
  {
    if limit < 0 then Failure(NegativeLimit)
    else Success(Limit(SortDesc(rows, Selected(rows, collection, background)), limit))
  }

  /** What SQL allows as the answer: distinct matching rows, in key order,
      as many as the limit allows, and no matching row left out that sorts
      strictly before one that was kept. */
  predicate IsSqlResult(rows: seq<Row>, collection: string, background: bool, limit: nat, res: seq<nat>)
  {
    && ValidPositions(rows, res)
    && (forall k :: 0 <= k < |res| ==> Matches(rows[res[k]], collection, background))
    && (forall k, l :: 0 <= k < l < |res| ==> res[k] != res[l])
    && SortedDesc(rows, res)
    && |res| == (var m := |Selected(rows, collection, background)|; if limit < m then limit else m)
    && (forall i, k :: 0 <= i < |rows| && Matches(rows[i], collection, background) && i !in res && 0 <= k < |res| ==>
          Before(rows[res[k]].SessionNumber(), rows[i].SessionNumber()))
  }

  /** A strictly increasing sequence holds each value at most once. */
  lemma {:induction false} IncreasingCountsOnce(t: seq<nat>, x: nat)
    requires forall k, l :: 0 <= k < l < |t| ==> t[k] < t[l]
    ensures multiset(t)[x] <= 1
  {
    if t != [] {
      var n := |t| - 1;
      assert t == t[..n] + [t[n]];
      IncreasingCountsOnce(t[..n], x);
      if t[n] == x {
        assert forall k :: 0 <= k < n ==> t[..n][k] < x;
        assert x !in t[..n];
      }
    }
  }

  /** The value at `k` occurs at least once more if it recurs at `l`. */
  lemma CountAtLeast(s: seq<nat>, k: nat, l: nat)
    requires k < l < |s|
    ensures multiset(s)[s[k]] >= 1 + (if s[l] == s[k] then 1 else 0)
  {
    assert s == s[..l] + [s[l]] + s[l + 1..];
    assert s[..l][k] == s[k];
    assert s[k] in multiset(s[..l]);
  }

  lemma DistinctFromMultiset(s: seq<nat>, t: seq<nat>)
    requires multiset(s) == multiset(t)
    requires forall k, l :: 0 <= k < l < |t| ==> t[k] < t[l]
    ensures forall k, l :: 0 <= k < l < |s| ==> s[k] != s[l]
  {
    forall k, l | 0 <= k < l < |s| ensures s[k] != s[l] {
      IncreasingCountsOnce(t, s[k]);
      CountAtLeast(s, k, l);
    }
  }

  /** The sorted selection holds every matching row exactly once. */
  lemma SortedSelection(rows: seq<Row>, collection: string, background: bool)
    ensures var sel := Selected(rows, collection, background);
            var sorted := SortDesc(rows, sel);
            && |sorted| == |sel|
            && (forall k, l :: 0 <= k < l < |sorted| ==> sorted[k] != sorted[l])
            && (forall k :: 0 <= k < |sorted| ==> Matches(rows[sorted[k]], collection, background))
            && (forall i :: 0 <= i < |rows| && Matches(rows[i], collection, background) ==> i in sorted)
  {
    var sel := Selected(rows, collection, background);
    var sorted := SortDesc(rows, sel);
    DistinctFromMultiset(sorted, sel);
    assert |multiset(sorted)| == |multiset(sel)|;
    forall k | 0 <= k < |sorted| ensures Matches(rows[sorted[k]], collection, background) {
      assert sorted[k] in multiset(sel);
    }
    forall i | 0 <= i < |rows| && Matches(rows[i], collection, background) ensures i in sorted {
      assert i in multiset(sel);
    }
  }

  /** Cutting a sorted list of every matching row, each once, at the limit
      gives an answer SQL allows. */
  lemma LimitOfSorted(rows: seq<Row>, collection: string, background: bool, limit: nat, sorted: seq<nat>)
    requires ValidPositions(rows, sorted) && SortedDesc(rows, sorted)
    requires |sorted| == |Selected(rows, collection, background)|
    requires forall k, l :: 0 <= k < l < |sorted| ==> sorted[k] != sorted[l]
    requires forall k :: 0 <= k < |sorted| ==> Matches(rows[sorted[k]], collection, background)
    requires forall i :: 0 <= i < |rows| && Matches(rows[i], collection, background) ==> i in sorted
    ensures IsSqlResult(rows, collection, background, limit, Limit(sorted, limit))
  {
    var res := Limit(sorted, limit);
    forall i, k | 0 <= i < |rows| && Matches(rows[i], collection, background) && i !in res && 0 <= k < |res|
      ensures Before(rows[res[k]].SessionNumber(), rows[i].SessionNumber())
    {
      var j :| 0 <= j < |sorted| && sorted[j] == i;
      assert j >= |res|;
    }
  }

  /** The modelled query returns an answer SQL allows. */
  lemma QueryIsSqlResult(rows: seq<Row>, collection: string, background: bool, limit: nat)
    ensures Query(rows, collection, background, limit).Success?
    ensures IsSqlResult(rows, collection, background, limit, Query(rows, collection, background, limit).value)
  {
    var sorted := SortDesc(rows, Selected(rows, collection, background));
    SortedSelection(rows, collection, background);
    LimitOfSorted(rows, collection, background, limit, sorted);
  }

  // ---------------------------------------------------------------------------
  // Focal and background records (lines 142-170)
  // ---------------------------------------------------------------------------

  /** Lines 142-155: the focal session summary, or the error `fetchone`
      leads to when nothing matches. */
  function Focal(rows: seq<Row>, collection: string): (r: Result<nat, RagError>)
    ensures r.Success? ==> r.value < |rows|
  {
    var res := Query(rows, collection, false, 1).value;
    if res == [] then Failure(NoFocalRecord) else Success(res[0])
  }

  /** Lines 158-170: the earlier session summaries, in query order. */
  function Background(rows: seq<Row>, collection: string, n: int): (r: Result<seq<nat>, RagError>)
    ensures r.Failure? <==> n < 0
    ensures r.Success? ==> ValidPositions(rows, r.value)
  {
    Query(rows, collection, true, n)
  }

  /** The focal record is a session summary of the collection with a
      session number no other one outranks; the query fails exactly when no
      row matches. */
  lemma FocalIsLatestNumber(rows: seq<Row>, collection: string)
    ensures Focal(rows, collection).Failure? <==>
              forall i :: 0 <= i < |rows| ==> !IsSessionSummary(rows[i], collection)
    ensures Focal(rows, collection).Failure? ==> Focal(rows, collection).error == NoFocalRecord
    ensures Focal(rows, collection).Success? ==>
              var f := Focal(rows, collection).value;
              && f < |rows| && IsSessionSummary(rows[f], collection)
              && forall i :: 0 <= i < |rows| && IsSessionSummary(rows[i], collection) ==>
                   Before(rows[f].SessionNumber(), rows[i].SessionNumber())
  {
    QueryIsSqlResult(rows, collection, false, 1);
    var sel := Selected(rows, collection, false);
    var res := Query(rows, collection, false, 1).value;
    if res != [] {
      var f := res[0];
      forall i | 0 <= i < |rows| && IsSessionSummary(rows[i], collection)
        ensures Before(rows[f].SessionNumber(), rows[i].SessionNumber())
      {
        if i != f {
          assert i !in res;
        }
      }
    } else {
      assert |sel| == 0;
    }
  }

  /** A matching row without a session number outranks every numbered one,
      so it is the focal record whenever there is one. */
  lemma NullSessionNumberOutranks(rows: seq<Row>, collection: string, i: nat)
    requires i < |rows| && IsSessionSummary(rows[i], collection) && rows[i].SessionNumber().None?
    ensures Focal(rows, collection).Success?
    ensures rows[Focal(rows, collection).value].SessionNumber().None?
  {
    FocalIsLatestNumber(rows, collection);
  }

  /** The background holds at most `n` earlier summaries of the collection,
      none flagged `is_latest`, in `DESC NULLS FIRST` order, and it omits
      no earlier summary that outranks one it holds. */
  lemma BackgroundSelection(rows: seq<Row>, collection: string, n: int)
    ensures Background(rows, collection, n).Failure? <==> n < 0
    ensures n >= 0 ==>
              var bg := Background(rows, collection, n).value;
              && |bg| <= n
              && IsSqlResult(rows, collection, true, n, bg)
              && (forall k :: 0 <= k < |bg| ==> rows[bg[k]].isLatest.None?)
  {
    if n >= 0 {
      QueryIsSqlResult(rows, collection, true, n);
    }
  }

  /** If the focal record carries `is_latest`, the background cannot
      repeat it. */
  lemma FlaggedFocalNotInBackground(rows: seq<Row>, collection: string, n: nat)
    requires Focal(rows, collection).Success?
    requires rows[Focal(rows, collection).value].isLatest.Some?
    ensures Focal(rows, collection).value !in Background(rows, collection, n).value
  {
    QueryIsSqlResult(rows, collection, true, n);
  }

  /** A strictly increasing sequence of positions below `m` has at most
      `m` elements. */
  lemma {:induction false} IncreasingBound(s: seq<nat>, m: nat)
    requires forall k, l :: 0 <= k < l < |s| ==> s[k] < s[l]
    requires forall k :: 0 <= k < |s| ==> s[k] < m
    ensures |s| <= m
  {
    if s != [] {
      var n := |s| - 1;
      IncreasingBound(s[..n], s[n]);
    }
  }

  /** When every row matches, every row is selected. */
  lemma {:induction false} AllMatchSelected(rows: seq<Row>, collection: string, background: bool)
    requires forall i :: 0 <= i < |rows| ==> Matches(rows[i], collection, background)
    ensures |Selected(rows, collection, background)| == |rows|
  {
    if rows != [] {
      AllMatchSelected(rows[..|rows| - 1], collection, background);
    }
  }

  /** A sorted, duplicate-free answer over rows numbered by position
      (`session_number` = position + 1) that leaves out no row below `m`
      outranking one it holds is `m - 1, m - 2, ...`. */
  lemma {:induction false} TopByPosition(rows: seq<Row>, bg: seq<nat>, m: nat, k: nat)
    requires m <= |rows| && k < |bg|
    requires forall j :: 0 <= j < m ==> rows[j].session == Number(j + 1)
    requires forall l :: 0 <= l < |bg| ==> bg[l] < m
    requires forall l, l' :: 0 <= l < l' < |bg| ==> bg[l] != bg[l']
    requires SortedDesc(rows, bg)
    requires forall i, l :: 0 <= i < m && i !in bg && 0 <= l < |bg| ==> Before(rows[bg[l]].SessionNumber(), rows[i].SessionNumber())
    ensures bg[k] == m - 1 - k
    decreases k
  {
    forall l, l' | 0 <= l < l' < |bg| ensures bg[l] > bg[l'] {
      assert Before(rows[bg[l]].SessionNumber(), rows[bg[l']].SessionNumber());
    }
    forall j | 0 <= j < k ensures bg[j] == m - 1 - j {
      TopByPosition(rows, bg, m, j);
    }
    assert k > 0 ==> bg[k] < bg[k - 1];
    assert bg[k] <= m - 1 - k;
    var i := m - 1 - k;
    if i in bg {
      var j :| 0 <= j < |bg| && bg[j] == i;
      assert j >= k;
    } else {
      assert Before(rows[bg[k]].SessionNumber(), rows[i].SessionNumber());
    }
  }

  /** Two unflagged summaries, the first with the higher number: the first
      is the focal record. */
  lemma UnflaggedFocal(rows: seq<Row>, collection: string)
    requires |rows| == 2
    requires IsEarlierSummary(rows[0], collection) && IsEarlierSummary(rows[1], collection)
    requires rows[0].session.Number? && rows[1].session.Number?
    requires rows[0].session.n > rows[1].session.n
    ensures Focal(rows, collection) == Success(0)
  {
    FocalIsLatestNumber(rows, collection);
    var f := Focal(rows, collection).value;
    assert f == 0 || f == 1;
    assert Before(rows[f].SessionNumber(), rows[0].SessionNumber());
  }

  /** ... and, without the flag, it is also the first background record:
      the background query excludes by flag, not by identity. */
  lemma UnflaggedFocalRepeated(rows: seq<Row>, collection: string, n: nat)
    requires |rows| == 2 && n >= 2
    requires IsEarlierSummary(rows[0], collection) && IsEarlierSummary(rows[1], collection)
    requires rows[0].session.Number? && rows[1].session.Number?
    requires rows[0].session.n > rows[1].session.n
    ensures Background(rows, collection, n) == Success([0, 1])
  {
    BackgroundSelection(rows, collection, n);
    forall i | 0 <= i < |rows| ensures Matches(rows[i], collection, true) {
      assert i == 0 || i == 1;
    }
    AllMatchSelected(rows, collection, true);
    TwoSessionsAnswer(rows, collection, n, Background(rows, collection, n).value);
  }

  /** Any answer of the background query over those two rows holds both,
      the higher number first. */
  lemma TwoSessionsAnswer(rows: seq<Row>, collection: string, n: nat, bg: seq<nat>)
    requires |rows| == 2 && n >= 2
    requires rows[0].session.Number? && rows[1].session.Number?
    requires rows[0].session.n > rows[1].session.n
    requires |Selected(rows, collection, true)| == 2
    requires IsSqlResult(rows, collection, true, n, bg)
    ensures bg == [0, 1]
  {
    assert |bg| == 2;
    assert bg[0] < 2 && bg[1] < 2 && bg[0] != bg[1];
    assert Before(rows[bg[0]].SessionNumber(), rows[bg[1]].SessionNumber());
    assert bg[0] == 0 && bg[1] == 1;
    assert bg == [bg[0], bg[1]];
  }

  /** Sessions 1 to 7 with `is_latest` on session 7 only: the focal record
      is session 7. */
  lemma SevenSessionsFocal(rows: seq<Row>, collection: string)
    requires |rows| == 7
    requires forall j :: 0 <= j < 7 ==> IsSessionSummary(rows[j], collection) && rows[j].session == Number(j + 1)
    ensures Focal(rows, collection) == Success(6)
  {
    FocalIsLatestNumber(rows, collection);
    var f := Focal(rows, collection).value;
    assert Before(rows[f].SessionNumber(), rows[6].SessionNumber());
  }

  /** ... and with `n` = 5 the background is sessions 6, 5, 4, 3, 2, newest
      first. */
  lemma SevenSessionsBackground(rows: seq<Row>, collection: string)
    requires |rows| == 7
    requires forall j :: 0 <= j < 7 ==> IsSessionSummary(rows[j], collection) && rows[j].session == Number(j + 1)
    requires forall j :: 0 <= j < 6 ==> rows[j].isLatest.None?
    requires rows[6].isLatest == Some(true)
    ensures Background(rows, collection, DefaultPreviousSessions) == Success([5, 4, 3, 2, 1])
  {
    BackgroundSelection(rows, collection, 5);
    SevenSessionsMatching(rows, collection);
    SevenSessionsTopFive(rows, collection, Background(rows, collection, 5).value);
  }

  /** Sessions 1 to 6 are the unflagged ones. */
  lemma SevenSessionsMatching(rows: seq<Row>, collection: string)
    requires |rows| == 7
    requires forall j :: 0 <= j < 7 ==> IsSessionSummary(rows[j], collection)
    requires forall j :: 0 <= j < 6 ==> rows[j].isLatest.None?
    requires rows[6].isLatest == Some(true)
    ensures |Selected(rows, collection, true)| == 6
  {
    AllMatchSelected(rows[..6], collection, true);
    assert Selected(rows, collection, true) == Selected(rows[..6], collection, true);
  }

  /** Any answer of the background query over those sessions is 6, 5, 4,
      3, 2 by position. */
  lemma SevenSessionsTopFive(rows: seq<Row>, collection: string, bg: seq<nat>)
    requires |rows| == 7
    requires forall j :: 0 <= j < 7 ==> rows[j].session == Number(j + 1)
    requires forall j :: 0 <= j < 6 ==> IsEarlierSummary(rows[j], collection)
    requires rows[6].isLatest == Some(true)
    requires |Selected(rows, collection, true)| == 6
    requires IsSqlResult(rows, collection, true, 5, bg)
    ensures bg == [5, 4, 3, 2, 1]
  {
    assert |bg| == 5;
    forall l | 0 <= l < |bg| ensures bg[l] < 6 {
      assert Matches(rows[bg[l]], collection, true);
    }
    forall k | 0 <= k < 5 ensures bg[k] == 5 - k {
      TopByPosition(rows, bg, 6, k);
    }
    PositionsFiveToOne(bg);
  }

  lemma PositionsFiveToOne(bg: seq<nat>)
    requires |bg| == 5 && forall k :: 0 <= k < 5 ==> bg[k] == 5 - k
    ensures bg == [5, 4, 3, 2, 1]
  {
  }

  // ---------------------------------------------------------------------------
  // Rendering and the prompt (lines 174-185)
  // ---------------------------------------------------------------------------

  /** `f"-- SESSION {row.cmetadata['session_number']} -- \n{row.document}"`:
      a JSON null is formatted as `None`, a missing key raises. */
  function RenderRow(r: Row): Result<string, RagError>
  {
    match r.session
    case Missing => Failure(MissingSessionNumber)
    case Null => Success("-- SESSION None -- \n" + r.document)
    case Number(n) => Success("-- SESSION " + IntToString(n) + " -- \n" + r.document)
  }

  /** Each background row rendered, in query order; the first row without a
      `session_number` key raises. */
  function RenderAll(rows: seq<Row>, bg: seq<nat>): (r: Result<seq<string>, RagError>)
    requires ValidPositions(rows, bg)
    ensures r.Success? <==> forall k :: 0 <= k < |bg| ==> !rows[bg[k]].session.Missing?
    ensures r.Success? ==> |r.value| == |bg| && forall k :: 0 <= k < |bg| ==> Success(r.value[k]) == RenderRow(rows[bg[k]])
  {
    if bg == [] then Success([])
    else
      var first :- RenderRow(rows[bg[0]]);
      var rest :- RenderAll(rows, bg[1..]);
      Success([first] + rest)
  }

  /** Lines 174-177: `"\n".join(...)` of the rendered rows. */
  function BackgroundBlock(rows: seq<Row>, bg: seq<nat>): Result<string, RagError>
    requires ValidPositions(rows, bg)
  {
    var parts :- RenderAll(rows, bg);
    Success(Join(parts, "\n"))
  }

  /** The block is empty exactly when there are no background rows (a
      rendered row is never empty). */
  lemma BackgroundBlockEmpty(rows: seq<Row>, bg: seq<nat>)
    requires ValidPositions(rows, bg)
    requires BackgroundBlock(rows, bg).Success?
    ensures BackgroundBlock(rows, bg).value == "" <==> bg == []
  {
    var parts := RenderAll(rows, bg).value;
    if |parts| > 1 {
      JoinAppend(parts[..1], parts[1..], "\n");
      assert parts[..1] + parts[1..] == parts;
    }
  }

  const PromptHead: string := "SYSTEM: You are a loremaster with knowledge of the setting and world of a Dungeons and Dragons campaign.\nYour job is to synthesise a summary of what happened in the last session of the story/campaign, given a clinical summary of said session (and a collection of summaries of sessions before that for additional context).\n---\nStylise your answers as though you are roleplaying a charismatic storyteller/bard who is regaling the fantasy characters in the Dungeons and Dragons campaign with a tale of the exploits in the previous session.\nUse the following pieces of context to answer the question at the end. If you don't know the answer, just say that you don't know, don't try to make up an answer.\nEnsure the answer fits within a 2000 character limit, and try to AVOID beginning every answer with \"Ah, ...\".\n\n--- CONTEXT - PREVIOUS SESSION SUMMARIES ---\n\n"
  const PromptMiddle: string := "\n\n--- CONTEXT - LAST SESSION SUMMARY ---\n\n"
  const PromptTail: string := "\n\n--- STORY OF LAST SESSION BEGINS ---\n\nQuestion: Tell me the story of what happened in the last session.\nStoryteller's Answer:"

  /** A template with two holes: the fixed text before, between and after
      them. */
  datatype Template = Template(head: string, middle: string, tail: string)

  /** `LAST_SESSION_PROMPT_TEMPLATE`, cut at its two placeholders. */
  const LastSessionTemplate: Template := Template(PromptHead, PromptMiddle, PromptTail)

  /** `template.format(...)`: the two texts placed into the holes verbatim,
      the first one first. */
  function Fill(t: Template, first: string, second: string): string
  {
    t.head + first + t.middle + second + t.tail
  }

  /** Both texts can be read back out of a filled template at fixed
      offsets, so the substitution neither alters nor reorders them. */
  lemma FillHoldsBothTexts(t: Template, first: string, second: string)
    ensures var p := Fill(t, first, second);
            var b := |t.head|;
            var f := b + |first| + |t.middle|;
            && |p| == f + |second| + |t.tail|
            && p[..b] == t.head
            && p[b..b + |first|] == first
            && p[b + |first|..f] == t.middle
            && p[f..f + |second|] == second
            && p[f + |second|..] == t.tail
  {
  }

  /** Lines 111-185 up to the model call, for a given template: the prompt
      the last-session flow sends, or the error that stops it. */
  function LastSessionPromptWith(t: Template, rows: seq<Row>, collection: string, n: int): Result<string, RagError>
  {
    var f :- Focal(rows, collection);
    var bg :- Background(rows, collection, n);
    var block :- BackgroundBlock(rows, bg);
    Success(Fill(t, block, rows[f].document))
  }

  /** The flow with `LAST_SESSION_PROMPT_TEMPLATE`. */
  function LastSessionPrompt(rows: seq<Row>, collection: string, n: int): Result<string, RagError>
  {
    LastSessionPromptWith(LastSessionTemplate, rows, collection, n)
  }

  /** The flow succeeds exactly when a focal record exists, `n` is not
      negative and every background row has a `session_number` key; the prompt
      then holds the background block and the focal text. */
  lemma LastSessionPromptResult(t: Template, rows: seq<Row>, collection: string, n: int)
    ensures LastSessionPromptWith(t, rows, collection, n).Success? <==>
              && Focal(rows, collection).Success?
              && n >= 0
              && forall k :: 0 <= k < |Background(rows, collection, n).value| ==>
                   !rows[Background(rows, collection, n).value[k]].session.Missing?
    ensures LastSessionPromptWith(t, rows, collection, n).Success? ==>
              LastSessionPromptWith(t, rows, collection, n).value ==
              Fill(t, BackgroundBlock(rows, Background(rows, collection, n).value).value,
                   rows[Focal(rows, collection).value].document)
  {
  }
}
