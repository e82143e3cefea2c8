/** The loader's tagging of fetched documents before they are written to the
    vector store (`load_pgvector`): every document is marked as a whole
    document, session-notes documents get the session number found in their
    name, and the newest session-notes document is flagged as the latest.
    Then chunks and documents are added to the store. */
module LoadPgvector {
  import opened Wrappers
  import opened PyStr
  import opened Documents
  import opened LoadUtil

  /** The exceptions the tagging block can raise; any of them aborts the
      load before anything is written. */
  datatype LoadError =
    | KeyError(key: string)  // `doc.metadata[key]` on a missing key
    | TypeError              // `in`, `findall` or `>` applied to a value of the wrong kind
    | IndexError             // `findall(...)[0]` on a name without a digit
    | EmptyMax               // `max()` of an empty sequence (a ValueError)

  // ---------------------------------------------------------------------------
  // Reading one document's metadata
  // ---------------------------------------------------------------------------

  /** `"Session Notes" in doc.metadata["tags"]`: membership for a list of
      tags, substring search for a single string. */
  function IsSessionNotes(md: Metadata): Result<bool, LoadError>
  {
    if "tags" !in md then Failure(KeyError("tags"))
    else match md["tags"]
      case StrList(items) => Success("Session Notes" in items)
      case Str(s) => Success(Contains(s, "Session Notes"))
      case _ => Failure(TypeError)
  }

  /** Index of the first ASCII digit at or after `i`, or `|s|`. */
  function FirstDigitFrom(s: string, i: nat): (k: nat)
    requires i <= |s|
    ensures i <= k <= |s|
    ensures forall m :: i <= m < k ==> !IsDigit(s[m])
    ensures k == |s| || IsDigit(s[k])
    decreases |s| - i
  {
    if i == |s| || IsDigit(s[i]) then i else FirstDigitFrom(s, i + 1)
  }

  /** Index just past the run of ASCII digits starting at `i`. */
  function DigitRunEnd(s: string, i: nat): (k: nat)
    requires i <= |s|
    ensures i <= k <= |s|
    ensures forall m :: i <= m < k ==> IsDigit(s[m])
    ensures k == |s| || !IsDigit(s[k])
    decreases |s| - i
  {
    if i < |s| && IsDigit(s[i]) then DigitRunEnd(s, i + 1) else i
  }

  /** `re.findall(r"\d+", s)[0]` as a pair of bounds: the leftmost maximal
      run of digits, or None when `s` has no digit at all. */
  function FirstDigitRun(s: string): (r: Option<(nat, nat)>)
    ensures r.None? <==> forall m :: 0 <= m < |s| ==> !IsDigit(s[m])
    ensures r.Some? ==>
              var (a, b) := r.value;
              && a < b <= |s|
              && (forall m :: 0 <= m < a ==> !IsDigit(s[m]))
              && AllDigits(s[a..b])
              && (b == |s| || !IsDigit(s[b]))
  {
    var a := FirstDigitFrom(s, 0);
    if a == |s| then None else Some((a, DigitRunEnd(s, a)))
  }

  /** `int(re.findall(r"\d+", doc.metadata["name"])[0])`. */
  function SessionNumber(md: Metadata): Result<int, LoadError>
  {
    if "name" !in md then Failure(KeyError("name"))
    else if !md["name"].Str? then Failure(TypeError)
    else
      var s := md["name"].s;
      match FirstDigitRun(s)
      case None => Failure(IndexError)
      case Some((a, b)) => Success(DigitsValue(s[a..b]))
  }

  /** `doc.metadata["created time"]`. */
  function CreatedTime(md: Metadata): Result<Value, LoadError>
  {
    if "created time" in md then Success(md["created time"]) else Failure(KeyError("created time"))
  }

  /** A value Python compares as a number: `bool` is a subclass of `int`,
      with `True == 1` and `False == 0`. */
  predicate IsNumber(a: Value) {
    a.Int? || a.Bool?
  }

  function NumberOf(a: Value): int
    requires IsNumber(a)
  {
    if a.Int? then a.i else if a.b then 1 else 0
  }

  /** `a > b` for two metadata values: strings and lists of strings compare
      lexicographically, integers and booleans numerically, and any other
      pairing raises. */
  function Greater(a: Value, b: Value): Result<bool, LoadError>
  {
    if a.Str? && b.Str? then Success(StrLess(b.s, a.s))
    else if IsNumber(a) && IsNumber(b) then Success(NumberOf(a) > NumberOf(b))
    else if a.StrList? && b.StrList? then Success(ListLess(b.items, a.items))
    else Failure(TypeError)
  }

  /** `a` and `b` can be compared. */
  predicate Comparable(a: Value, b: Value) {
    || (a.Str? && b.Str?)
    || (IsNumber(a) && IsNumber(b))
    || (a.StrList? && b.StrList?)
  }

  /** `a < b`, for comparable values. */
  predicate KeyLess(a: Value, b: Value) {
    || (a.Str? && b.Str? && StrLess(a.s, b.s))
    || (IsNumber(a) && IsNumber(b) && NumberOf(a) < NumberOf(b))
    || (a.StrList? && b.StrList? && ListLess(a.items, b.items))
  }

  /** `a == b` for comparable values: `True == 1` although they are
      different values here. */
  predicate SameKey(a: Value, b: Value) {
    || (a.Str? && b.Str? && a.s == b.s)
    || (IsNumber(a) && IsNumber(b) && NumberOf(a) == NumberOf(b))
    || (a.StrList? && b.StrList? && a.items == b.items)
  }

  lemma GreaterIsKeyLess(a: Value, b: Value)
    ensures Greater(a, b).Success? <==> Comparable(a, b)
    ensures Greater(a, b).Success? ==> (Greater(a, b).value <==> KeyLess(b, a))
  {
  }

  lemma KeyLessTransitive(a: Value, b: Value, c: Value)
    requires KeyLess(a, b) && KeyLess(b, c)
    ensures KeyLess(a, c)
  {
    if a.Str? {
      StrLessTransitive(a.s, b.s, c.s);
    } else if a.StrList? {
      ListLessTransitive(a.items, b.items, c.items);
    }
  }

  lemma KeyLessTotal(a: Value, b: Value)
    requires Comparable(a, b)
    ensures SameKey(a, b) || KeyLess(a, b) || KeyLess(b, a)
  {
    if a.Str? {
      StrLessTotal(a.s, b.s);
    } else if a.StrList? {
      ListLessTotal(a.items, b.items);
    }
  }

  lemma KeyLessIrreflexive(a: Value)
    ensures !KeyLess(a, a)
  {
    if a.Str? {
      StrLessIrreflexive(a.s);
    } else if a.StrList? {
      ListLessIrreflexive(a.items);
    }
  }

  /** A key not greater than `b` is less than whatever `b` is less than. */
  lemma KeyLessAfterNotGreater(a: Value, b: Value, c: Value)
    requires Comparable(a, b) && !KeyLess(b, a) && KeyLess(b, c)
    ensures KeyLess(a, c)
  {
    KeyLessTotal(a, b);
    if !SameKey(a, b) {
      KeyLessTransitive(a, b, c);
    }
  }

  // ---------------------------------------------------------------------------
  // The tagging block, stage by stage (lines 43-53)
  // ---------------------------------------------------------------------------

  /** Lines 43-44: `doc.metadata["embedding_type"] = "document"` for every document. */
  function MarkAll(mds: seq<Metadata>): (r: seq<Metadata>)
    ensures |r| == |mds|
    ensures forall i :: 0 <= i < |mds| ==> r[i] == mds[i]["embedding_type" := Str("document")]
  {
    seq(|mds|, i requires 0 <= i < |mds| => mds[i]["embedding_type" := Str("document")])
  }

  /** Line 47: the positions of the session-notes documents, in fetch
      order; the first document whose tags cannot be read raises. */
  function SessionNotesIndices(mds: seq<Metadata>): (r: Result<seq<nat>, LoadError>)
    ensures r.Success? <==> forall i :: 0 <= i < |mds| ==> IsSessionNotes(mds[i]).Success?
    ensures r.Success? ==> forall k :: 0 <= k < |r.value| ==> r.value[k] < |mds|
    ensures r.Success? ==> forall k, l :: 0 <= k < l < |r.value| ==> r.value[k] < r.value[l]
    ensures r.Success? ==>
              forall i :: 0 <= i < |mds| ==> (i in r.value <==> IsSessionNotes(mds[i]) == Success(true))
  {
    if mds == [] then Success([])
    else
      var n := |mds| - 1;
      var idx :- SessionNotesIndices(mds[..n]);
      var b :- IsSessionNotes(mds[n]);
      SelectionExtends(mds, mds[..n], idx, b);
      Success(if b then idx + [n] else idx)
  }

  /** The selection of a non-empty list from the selection of all but its
      last document and that document's tag test. */
  lemma SelectionExtends(mds: seq<Metadata>, prefix: seq<Metadata>, idx: seq<nat>, b: bool)
    requires |mds| > 0 && prefix == mds[..|mds| - 1] && IsSessionNotes(mds[|mds| - 1]) == Success(b)
    requires forall i :: 0 <= i < |prefix| ==> IsSessionNotes(prefix[i]).Success?
    requires forall k :: 0 <= k < |idx| ==> idx[k] < |prefix|
    requires forall k, l :: 0 <= k < l < |idx| ==> idx[k] < idx[l]
    requires forall i :: 0 <= i < |prefix| ==> (i in idx <==> IsSessionNotes(prefix[i]) == Success(true))
    ensures var r := if b then idx + [|mds| - 1] else idx;
            && (forall i :: 0 <= i < |mds| ==> IsSessionNotes(mds[i]).Success?)
            && (forall k :: 0 <= k < |r| ==> r[k] < |mds|)
            && (forall k, l :: 0 <= k < l < |r| ==> r[k] < r[l])
            && (forall i :: 0 <= i < |mds| ==> (i in r <==> IsSessionNotes(mds[i]) == Success(true)))
  {
    var n := |mds| - 1;
    assert forall i :: 0 <= i < n ==> mds[..n][i] == mds[i];
    var r := if b then idx + [n] else idx;
    forall i | 0 <= i < |mds|
      ensures i in r <==> IsSessionNotes(mds[i]) == Success(true)
    {
      if i < n {
        assert i != n;
        assert i in r <==> i in idx;
      }
    }
  }

  /** The loop's step over the selection: the next document either raises,
      which is then the outcome for the whole list, or extends the prefix's
      selection. */
  lemma SelectionStep(mds: seq<Metadata>, i: nat, idxs: seq<nat>)
    requires i < |mds| && SessionNotesIndices(mds[..i]) == Success(idxs)
    ensures IsSessionNotes(mds[i]).Failure? ==>
              SessionNotesIndices(mds) == Failure(IsSessionNotes(mds[i]).error)
    ensures IsSessionNotes(mds[i]).Success? ==>
              SessionNotesIndices(mds[..i + 1])
              == Success(if IsSessionNotes(mds[i]).value then idxs + [i] else idxs)
  {
    assert mds[..i + 1][..i] == mds[..i];
    if IsSessionNotes(mds[i]).Failure? {
      SelectionStopsAtFailure(mds, i + 1);
    }
  }

  /** `md` with its `session_number` set from its name. */
  function WithNumber(md: Metadata): Metadata
    requires SessionNumber(md).Success?
  {
    md["session_number" := Int(SessionNumber(md).value)]
  }

  /** Setting `session_number` leaves the name, and so the number, unchanged. */
  lemma WithNumberAgain(md: Metadata)
    requires SessionNumber(md).Success?
    ensures SessionNumber(WithNumber(md)) == SessionNumber(md)
    ensures WithNumber(WithNumber(md)) == WithNumber(md)
  {
    assert "name" != "session_number";
  }

  /** Lines 48-49, the exception: the error of the first listed document
      whose name holds no number, or `None` when every name does. */
  function NumberingError(mds: seq<Metadata>, idxs: seq<nat>): (e: Option<LoadError>)
    requires forall k :: 0 <= k < |idxs| ==> idxs[k] < |mds|
    ensures e.None? <==> forall k :: 0 <= k < |idxs| ==> SessionNumber(mds[idxs[k]]).Success?
    ensures e.Some? ==>
              exists k :: && 0 <= k < |idxs| && SessionNumber(mds[idxs[k]]) == Failure(e.value)
                          && forall k' :: 0 <= k' < k ==> SessionNumber(mds[idxs[k']]).Success?
  {
    if idxs == [] then None
    else
      match SessionNumber(mds[idxs[0]])
      case Failure(err) => Some(err)
      case Success(_) =>
        var e := NumberingError(mds, idxs[1..]);
        assert forall k :: 0 <= k < |idxs| - 1 ==> idxs[1..][k] == idxs[k + 1];
        e
  }

  /** Lines 48-49, the effect: every listed document with its session
      number set. */
  function Numbered(mds: seq<Metadata>, idxs: seq<nat>): (r: seq<Metadata>)
    requires forall k :: 0 <= k < |idxs| ==> idxs[k] < |mds| && SessionNumber(mds[idxs[k]]).Success?
    ensures |r| == |mds|
    ensures forall i :: 0 <= i < |mds| ==> r[i] == if i in idxs then WithNumber(mds[i]) else mds[i]
  {
    seq(|mds|, i requires 0 <= i < |mds| => if i in idxs then WithNumber(mds[i]) else mds[i])
  }

  /** Lines 48-49: `doc.metadata["session_number"] = ...` for each listed
      position in turn; the first name without a usable number raises. */
  function SetSessionNumbers(mds: seq<Metadata>, idxs: seq<nat>): (r: Result<seq<Metadata>, LoadError>)
    requires forall k :: 0 <= k < |idxs| ==> idxs[k] < |mds|
    ensures r.Success? <==> forall k :: 0 <= k < |idxs| ==> SessionNumber(mds[idxs[k]]).Success?
    ensures r.Success? ==> |r.value| == |mds|
    ensures r.Success? ==>
              forall i :: 0 <= i < |mds| ==>
                r.value[i] == if i in idxs then WithNumber(mds[i]) else mds[i]
    ensures r.Failure? ==>
              exists k :: && 0 <= k < |idxs| && SessionNumber(mds[idxs[k]]) == Failure(r.error)
                          && forall k' :: 0 <= k' < k ==> SessionNumber(mds[idxs[k']]).Success?
  {
    match NumberingError(mds, idxs)
    case Some(e) => Failure(e)
    case None => Success(Numbered(mds, idxs))
  }

  /** The key of the `q`-th session-notes document. */
  function KeyAt(mds: seq<Metadata>, idxs: seq<nat>, q: nat): Result<Value, LoadError>
    requires q < |idxs| && idxs[q] < |mds|
  {
    CreatedTime(mds[idxs[q]])
  }

  /** The loop inside `max(session_notes, key=...)` from position `j` on:
      the position of the first greatest key so far is `best`, with key
      `bestKey`; a later key replaces it only if it is strictly greater. */
  function MaxFrom(mds: seq<Metadata>, idxs: seq<nat>, j: nat, best: nat, bestKey: Value): Result<nat, LoadError>
    requires j <= |idxs|
    requires forall k :: 0 <= k < |idxs| ==> idxs[k] < |mds|
    decreases |idxs| - j
  {
    if j == |idxs| then Success(best)
    else
      var key :- KeyAt(mds, idxs, j);
      var gt :- Greater(key, bestKey);
      if gt then MaxFrom(mds, idxs, j + 1, j, key) else MaxFrom(mds, idxs, j + 1, best, bestKey)
  }

  /** Line 52: `max(session_notes, key=lambda d: d.metadata["created time"])`
      as a position in `idxs`. */
  function LatestPosition(mds: seq<Metadata>, idxs: seq<nat>): Result<nat, LoadError>
    requires forall k :: 0 <= k < |idxs| ==> idxs[k] < |mds|
  {
    if idxs == [] then Failure(EmptyMax)
    else
      var key :- KeyAt(mds, idxs, 0);
      MaxFrom(mds, idxs, 1, 0, key)
  }

  /** Position `p` holds the first greatest created time among `idxs`: every
      key can be read and compared with it, earlier keys are smaller and
      later keys are not greater. */
  predicate IsFirstMax(mds: seq<Metadata>, idxs: seq<nat>, p: nat)
    requires forall k :: 0 <= k < |idxs| ==> idxs[k] < |mds|
  {
    && p < |idxs|
    && (forall q :: 0 <= q < |idxs| ==> KeyAt(mds, idxs, q).Success?)
    && (forall q :: 0 <= q < |idxs| && q != p ==> Comparable(KeyAt(mds, idxs, q).value, KeyAt(mds, idxs, p).value))
    && (forall q :: 0 <= q < p ==> KeyLess(KeyAt(mds, idxs, q).value, KeyAt(mds, idxs, p).value))
    && (forall q :: p < q < |idxs| ==> !KeyLess(KeyAt(mds, idxs, p).value, KeyAt(mds, idxs, q).value))
  }

  lemma {:induction false} MaxFromIsFirstMax(mds: seq<Metadata>, idxs: seq<nat>, j: nat, best: nat, bestKey: Value)
    requires j <= |idxs|
    requires forall k :: 0 <= k < |idxs| ==> idxs[k] < |mds|
    requires best < j
    requires forall q :: 0 <= q < j ==> KeyAt(mds, idxs, q).Success?
    requires bestKey == KeyAt(mds, idxs, best).value
    requires forall q :: 0 <= q < j && q != best ==> Comparable(KeyAt(mds, idxs, q).value, bestKey)
    requires forall q :: 0 <= q < best ==> KeyLess(KeyAt(mds, idxs, q).value, bestKey)
    requires forall q :: best < q < j ==> !KeyLess(bestKey, KeyAt(mds, idxs, q).value)
    ensures MaxFrom(mds, idxs, j, best, bestKey).Success? ==>
              IsFirstMax(mds, idxs, MaxFrom(mds, idxs, j, best, bestKey).value)
    decreases |idxs| - j
  {
    if j < |idxs| && KeyAt(mds, idxs, j).Success? {
      var key := KeyAt(mds, idxs, j).value;
      GreaterIsKeyLess(key, bestKey);
      if Greater(key, bestKey) == Success(true) {
        forall q | 0 <= q < j
          ensures Comparable(KeyAt(mds, idxs, q).value, key)
          ensures KeyLess(KeyAt(mds, idxs, q).value, key)
        {
          var kq := KeyAt(mds, idxs, q).value;
          if q < best {
            KeyLessTransitive(kq, bestKey, key);
          } else if best < q {
            KeyLessAfterNotGreater(kq, bestKey, key);
          }
        }
        MaxFromIsFirstMax(mds, idxs, j + 1, j, key);
      } else if Greater(key, bestKey) == Success(false) {
        MaxFromIsFirstMax(mds, idxs, j + 1, best, bestKey);
      }
    }
  }

  lemma {:induction false} MaxFromNotEmptyMax(mds: seq<Metadata>, idxs: seq<nat>, j: nat, best: nat, bestKey: Value)
    requires j <= |idxs|
    requires forall k :: 0 <= k < |idxs| ==> idxs[k] < |mds|
    ensures MaxFrom(mds, idxs, j, best, bestKey) != Failure(EmptyMax)
    decreases |idxs| - j
  {
    if j < |idxs| && KeyAt(mds, idxs, j).Success? {
      MaxFromNotEmptyMax(mds, idxs, j + 1, j, KeyAt(mds, idxs, j).value);
      MaxFromNotEmptyMax(mds, idxs, j + 1, best, bestKey);
    }
  }

  /** `max` returns the first session-notes document with the greatest
      created time, and raises `EmptyMax` exactly when there is none. */
  lemma LatestPositionIsFirstMax(mds: seq<Metadata>, idxs: seq<nat>)
    requires forall k :: 0 <= k < |idxs| ==> idxs[k] < |mds|
    ensures LatestPosition(mds, idxs) == Failure(EmptyMax) <==> idxs == []
    ensures LatestPosition(mds, idxs).Success? ==> IsFirstMax(mds, idxs, LatestPosition(mds, idxs).value)
  {
    if idxs != [] && KeyAt(mds, idxs, 0).Success? {
      var key := KeyAt(mds, idxs, 0).value;
      MaxFromIsFirstMax(mds, idxs, 1, 0, key);
      MaxFromNotEmptyMax(mds, idxs, 1, 0, key);
    }
  }

  /** There is only one first maximum. */
  lemma FirstMaxUnique(mds: seq<Metadata>, idxs: seq<nat>, p: nat, p': nat)
    requires forall k :: 0 <= k < |idxs| ==> idxs[k] < |mds|
    requires IsFirstMax(mds, idxs, p) && IsFirstMax(mds, idxs, p')
    ensures p == p'
  {
    var kp, kp' := KeyAt(mds, idxs, p).value, KeyAt(mds, idxs, p').value;
    assert p < p' ==> KeyLess(kp, kp') && !KeyLess(kp, kp');
    assert p' < p ==> KeyLess(kp', kp) && !KeyLess(kp', kp);
  }

  // ---------------------------------------------------------------------------
  // The whole tagging block (lines 43-53)
  // ---------------------------------------------------------------------------

  /** Lines 43-53 on the metadata of the fetched documents, in fetch order:
      the new metadata, or the exception that stops the load. */
  function TagDocuments(mds: seq<Metadata>): (r: Result<seq<Metadata>, LoadError>)
    ensures r.Success? ==> |r.value| == |mds|
  {
    var marked := MarkAll(mds);
    var idxs :- SessionNotesIndices(marked);
    var numbered :- SetSessionNumbers(marked, idxs);
    var p :- LatestPosition(numbered, idxs);
    LatestPositionIsFirstMax(numbered, idxs);
    var l := idxs[p];
    Success(numbered[l := numbered[l]["is_latest" := Bool(true)]])
  }

  /** Document `i` is a session-notes document whose created time is greater
      than that of every earlier session-notes document and not smaller than
      that of any later one. */
  predicate IsLatestSessionNotes(mds: seq<Metadata>, i: nat)
    requires i < |mds|
  {
    && IsSessionNotes(mds[i]) == Success(true)
    && CreatedTime(mds[i]).Success?
    && forall j :: 0 <= j < |mds| && j != i && IsSessionNotes(mds[j]) == Success(true) ==>
         && CreatedTime(mds[j]).Success?
         && Comparable(CreatedTime(mds[j]).value, CreatedTime(mds[i]).value)
         && (j < i ==> KeyLess(CreatedTime(mds[j]).value, CreatedTime(mds[i]).value))
         && (i < j ==> !KeyLess(CreatedTime(mds[i]).value, CreatedTime(mds[j]).value))
  }

  /** At most one document is the latest session notes. */
  lemma LatestSessionNotesUnique(mds: seq<Metadata>, i: nat, i': nat)
    requires i < |mds| && i' < |mds|
    requires IsLatestSessionNotes(mds, i) && IsLatestSessionNotes(mds, i')
    ensures i == i'
  {
    var k, k' := CreatedTime(mds[i]).value, CreatedTime(mds[i']).value;
    assert i < i' ==> KeyLess(k, k') && !KeyLess(k, k');
    assert i' < i ==> KeyLess(k', k) && !KeyLess(k', k);
  }

  /** What the tagging block makes of one document's metadata. */
  function Tagged(md: Metadata, latest: bool): Metadata
    requires IsSessionNotes(md) == Success(true) ==> SessionNumber(md).Success?
  {
    var m1 := md["embedding_type" := Str("document")];
    var m2 := if IsSessionNotes(md) == Success(true) then m1["session_number" := Int(SessionNumber(md).value)] else m1;
    if latest then m2["is_latest" := Bool(true)] else m2
  }

  /** What `Tagged` adds, changes and keeps. */
  lemma TaggedKeys(md: Metadata, latest: bool)
    requires IsSessionNotes(md) == Success(true) ==> SessionNumber(md).Success?
    ensures Tagged(md, latest)["embedding_type"] == Str("document")
    ensures "session_number" in Tagged(md, latest) <==> (IsSessionNotes(md) == Success(true) || "session_number" in md)
    ensures IsSessionNotes(md) == Success(true) ==>
              Tagged(md, latest)["session_number"] == Int(SessionNumber(md).value)
    ensures "is_latest" in Tagged(md, latest) <==> (latest || "is_latest" in md)
    ensures latest ==> Tagged(md, latest)["is_latest"] == Bool(true)
    ensures md.Keys <= Tagged(md, latest).Keys
    ensures forall k :: k in Tagged(md, latest) && k !in {"embedding_type", "session_number", "is_latest"} ==>
              k in md && Tagged(md, latest)[k] == md[k]
    ensures IsSessionNotes(md) == Success(false) && !latest ==> Tagged(md, latest) == md["embedding_type" := Str("document")]
  {
    assert "is_latest" != "embedding_type" && "is_latest" != "session_number";
    assert "embedding_type"[0] != "session_number"[0];
  }

  /** The keys the block writes are not the keys it reads. */
  lemma WritesDoNotAffectReads(md: Metadata, k: string, v: Value)
    requires k in {"embedding_type", "session_number", "is_latest"}
    ensures IsSessionNotes(md[k := v]) == IsSessionNotes(md)
    ensures SessionNumber(md[k := v]) == SessionNumber(md)
    ensures CreatedTime(md[k := v]) == CreatedTime(md)
  {
    assert k[0] != 't' && k[0] != 'n' && k[0] != 'c';
  }

  /** Errors: the block succeeds only if every document's tags can be read
      and every session-notes name holds a digit run. */
  lemma {:induction false} TagDocumentsNeeds(mds: seq<Metadata>)
    requires TagDocuments(mds).Success?
    ensures forall i :: 0 <= i < |mds| ==> IsSessionNotes(mds[i]).Success?
    ensures forall i :: 0 <= i < |mds| && IsSessionNotes(mds[i]) == Success(true) ==> SessionNumber(mds[i]).Success?
  {
    var marked := MarkAll(mds);
    var idxs := SessionNotesIndices(marked).value;
    forall i | 0 <= i < |mds|
      ensures IsSessionNotes(mds[i]).Success?
      ensures IsSessionNotes(mds[i]) == Success(true) ==> SessionNumber(mds[i]).Success?
    {
      WritesDoNotAffectReads(mds[i], "embedding_type", Str("document"));
      if IsSessionNotes(mds[i]) == Success(true) {
        assert i in idxs;
        var q :| 0 <= q < |idxs| && idxs[q] == i;
        assert SessionNumber(marked[idxs[q]]).Success?;
      }
    }
  }

  /** The result, document by document: every document is marked, every
      session-notes document numbered, and one document `l`, the latest
      session-notes document, flagged. */
  lemma {:induction false} TagDocumentsResult(mds: seq<Metadata>)
    requires TagDocuments(mds).Success?
    ensures forall i :: 0 <= i < |mds| && IsSessionNotes(mds[i]) == Success(true) ==> SessionNumber(mds[i]).Success?
    ensures |TagDocuments(mds).value| == |mds|
    ensures exists l :: 0 <= l < |mds| && IsLatestSessionNotes(mds, l) &&
              forall i :: 0 <= i < |mds| ==> TagDocuments(mds).value[i] == Tagged(mds[i], i == l)
  {
    TagDocumentsNeeds(mds);
    var marked := MarkAll(mds);
    var idxs := SessionNotesIndices(marked).value;
    var numbered := SetSessionNumbers(marked, idxs).value;
    LatestPositionIsFirstMax(numbered, idxs);
    var p := LatestPosition(numbered, idxs).value;
    var l := idxs[p];
    var r := numbered[l := numbered[l]["is_latest" := Bool(true)]];
    assert TagDocuments(mds) == Success(r);
    forall i | 0 <= i < |mds|
      ensures IsSessionNotes(marked[i]) == IsSessionNotes(mds[i])
      ensures CreatedTime(numbered[i]) == CreatedTime(mds[i])
    {
      WritesDoNotAffectReads(mds[i], "embedding_type", Str("document"));
      if i in idxs {
        WritesDoNotAffectReads(marked[i], "session_number", Int(SessionNumber(marked[i]).value));
      }
    }
    LatestIsFirstMax(mds, idxs, numbered, p);
    forall i | 0 <= i < |mds|
      ensures r[i] == Tagged(mds[i], i == l)
    {
      TaggedAt(mds[i], marked[i], numbered[i], i in idxs, i == l);
    }
  }

  /** One document through the three stages. */
  lemma TaggedAt(md: Metadata, marked: Metadata, numbered: Metadata, session: bool, latest: bool)
    requires marked == md["embedding_type" := Str("document")]
    requires session <==> IsSessionNotes(md) == Success(true)
    requires session ==> SessionNumber(marked).Success? && numbered == WithNumber(marked)
    requires !session ==> numbered == marked
    ensures IsSessionNotes(md) == Success(true) ==> SessionNumber(md).Success?
    ensures (if latest then numbered["is_latest" := Bool(true)] else numbered) == Tagged(md, latest)
  {
    WritesDoNotAffectReads(md, "embedding_type", Str("document"));
  }

  /** The position chosen by `max` is the latest session-notes document. */
  lemma LatestIsFirstMax(mds: seq<Metadata>, idxs: seq<nat>, numbered: seq<Metadata>, p: nat)
    requires |numbered| == |mds|
    requires forall k :: 0 <= k < |idxs| ==> idxs[k] < |mds|
    requires forall k, l :: 0 <= k < l < |idxs| ==> idxs[k] < idxs[l]
    requires forall i :: 0 <= i < |mds| ==> (i in idxs <==> IsSessionNotes(mds[i]) == Success(true))
    requires forall i :: 0 <= i < |mds| ==> CreatedTime(numbered[i]) == CreatedTime(mds[i])
    requires IsFirstMax(numbered, idxs, p)
    ensures IsLatestSessionNotes(mds, idxs[p])
  {
    var l := idxs[p];
    assert KeyAt(numbered, idxs, p) == CreatedTime(mds[l]);
    forall j | 0 <= j < |mds| && j != l && IsSessionNotes(mds[j]) == Success(true)
      ensures CreatedTime(mds[j]).Success?
      ensures Comparable(CreatedTime(mds[j]).value, CreatedTime(mds[l]).value)
      ensures j < l ==> KeyLess(CreatedTime(mds[j]).value, CreatedTime(mds[l]).value)
      ensures l < j ==> !KeyLess(CreatedTime(mds[l]).value, CreatedTime(mds[j]).value)
    {
      var q :| 0 <= q < |idxs| && idxs[q] == j;
      assert KeyAt(numbered, idxs, q) == CreatedTime(mds[j]);
      assert j < l <==> q < p;
    }
    assert idxs[p] in idxs;
  }

  // ---------------------------------------------------------------------------
  // The properties the tagging block promises
  // ---------------------------------------------------------------------------

  /** Lines 43-44: every fetched document is marked as a whole document. */
  lemma EveryDocumentMarked(mds: seq<Metadata>)
    requires TagDocuments(mds).Success?
    ensures |TagDocuments(mds).value| == |mds|
    ensures forall i :: 0 <= i < |mds| ==>
              "embedding_type" in TagDocuments(mds).value[i] &&
              TagDocuments(mds).value[i]["embedding_type"] == Str("document")
  {
    TagDocumentsResult(mds);
    var r := TagDocuments(mds).value;
    var l :| 0 <= l < |mds| && IsLatestSessionNotes(mds, l) && forall i :: 0 <= i < |mds| ==> r[i] == Tagged(mds[i], i == l);
    forall i | 0 <= i < |mds|
      ensures "embedding_type" in r[i] && r[i]["embedding_type"] == Str("document")
    {
      TaggedKeys(mds[i], i == l);
    }
  }

  /** Lines 47-49: a document gets a session number exactly when it is a
      session-notes document (given it had none), and the number is the
      value of the first digit run in its name. */
  lemma SessionNumberIffSessionNotes(mds: seq<Metadata>)
    requires TagDocuments(mds).Success?
    requires forall i :: 0 <= i < |mds| ==> "session_number" !in mds[i]
    ensures forall i :: 0 <= i < |mds| ==>
              ("session_number" in TagDocuments(mds).value[i] <==> IsSessionNotes(mds[i]) == Success(true))
    ensures forall i :: 0 <= i < |mds| && IsSessionNotes(mds[i]) == Success(true) ==>
              && "name" in mds[i] && mds[i]["name"].Str? && FirstDigitRun(mds[i]["name"].s).Some?
              && var name := mds[i]["name"].s;
                 var (a, b) := FirstDigitRun(name).value;
                 TagDocuments(mds).value[i]["session_number"] == Int(DigitsValue(name[a..b]))
  {
    TagDocumentsResult(mds);
    var r := TagDocuments(mds).value;
    var l :| 0 <= l < |mds| && IsLatestSessionNotes(mds, l) && forall i :: 0 <= i < |mds| ==> r[i] == Tagged(mds[i], i == l);
    forall i | 0 <= i < |mds|
      ensures "session_number" in r[i] <==> IsSessionNotes(mds[i]) == Success(true)
      ensures IsSessionNotes(mds[i]) == Success(true) ==>
                && "name" in mds[i] && mds[i]["name"].Str? && FirstDigitRun(mds[i]["name"].s).Some?
                && r[i]["session_number"] == Int(SessionNumber(mds[i]).value)
    {
      TaggedKeys(mds[i], i == l);
    }
  }

  /** Lines 52-53: exactly one document is flagged as latest (given none
      was), and it is the latest session-notes document. */
  lemma ExactlyOneLatest(mds: seq<Metadata>)
    requires TagDocuments(mds).Success?
    requires forall i :: 0 <= i < |mds| ==> "is_latest" !in mds[i]
    ensures forall i :: 0 <= i < |mds| ==>
              ("is_latest" in TagDocuments(mds).value[i] <==> IsLatestSessionNotes(mds, i))
    ensures forall i :: 0 <= i < |mds| && "is_latest" in TagDocuments(mds).value[i] ==>
              TagDocuments(mds).value[i]["is_latest"] == Bool(true)
    ensures exists i :: 0 <= i < |mds| && "is_latest" in TagDocuments(mds).value[i]
    ensures forall i, j ::
              (0 <= i < |mds| && 0 <= j < |mds| &&
               "is_latest" in TagDocuments(mds).value[i] && "is_latest" in TagDocuments(mds).value[j]) ==> i == j
  {
    TagDocumentsResult(mds);
    var r := TagDocuments(mds).value;
    var l :| 0 <= l < |mds| && IsLatestSessionNotes(mds, l) && forall i :: 0 <= i < |mds| ==> r[i] == Tagged(mds[i], i == l);
    forall i | 0 <= i < |mds|
      ensures "is_latest" in r[i] <==> i == l
      ensures i == l ==> r[i]["is_latest"] == Bool(true)
      ensures IsLatestSessionNotes(mds, i) <==> i == l
    {
      TaggedKeys(mds[i], i == l);
      if IsLatestSessionNotes(mds, i) {
        LatestSessionNotesUnique(mds, i, l);
      }
    }
    assert "is_latest" in r[l];
  }

  /** Lines 43-53 add no key other than the three, change no other key, and
      remove nothing; a document that is not session notes gets only
      `embedding_type` (and `is_latest` never). */
  lemma OnlyThreeKeysAdded(mds: seq<Metadata>)
    requires TagDocuments(mds).Success?
    ensures forall i :: 0 <= i < |mds| ==> mds[i].Keys <= TagDocuments(mds).value[i].Keys
    ensures forall i, k ::
              (0 <= i < |mds| && k in TagDocuments(mds).value[i] &&
               k !in {"embedding_type", "session_number", "is_latest"}) ==>
              k in mds[i] && TagDocuments(mds).value[i][k] == mds[i][k]
    ensures forall i :: 0 <= i < |mds| && IsSessionNotes(mds[i]) == Success(false) ==>
              TagDocuments(mds).value[i] == mds[i]["embedding_type" := Str("document")]
  {
    TagDocumentsResult(mds);
    var r := TagDocuments(mds).value;
    var l :| 0 <= l < |mds| && IsLatestSessionNotes(mds, l) && forall i :: 0 <= i < |mds| ==> r[i] == Tagged(mds[i], i == l);
    forall i | 0 <= i < |mds|
      ensures mds[i].Keys <= r[i].Keys
      ensures forall k :: k in r[i] && k !in {"embedding_type", "session_number", "is_latest"} ==> k in mds[i] && r[i][k] == mds[i][k]
      ensures IsSessionNotes(mds[i]) == Success(false) ==> r[i] == mds[i]["embedding_type" := Str("document")]
    {
      TaggedKeys(mds[i], i == l);
    }
  }

  lemma {:induction false} NoneSelected(mds: seq<Metadata>)
    requires forall i :: 0 <= i < |mds| ==> IsSessionNotes(mds[i]) == Success(false)
    ensures SessionNotesIndices(mds) == Success([])
  {
    if mds != [] {
      NoneSelected(mds[..|mds| - 1]);
    }
  }

  /** Line 52: without a session-notes document `max` raises, so the load
      stops before anything is written. */
  lemma NoSessionNotesFails(mds: seq<Metadata>)
    requires forall i :: 0 <= i < |mds| ==> IsSessionNotes(mds[i]) == Success(false)
    ensures TagDocuments(mds) == Failure(EmptyMax)
  {
    var marked := MarkAll(mds);
    forall i | 0 <= i < |mds| ensures IsSessionNotes(marked[i]) == Success(false) {
      WritesDoNotAffectReads(mds[i], "embedding_type", Str("document"));
    }
    NoneSelected(marked);
  }

  /** Line 49: a session-notes document whose name holds no digit stops the
      load. */
  lemma NameWithoutDigitFails(mds: seq<Metadata>, i: nat)
    requires i < |mds|
    requires IsSessionNotes(mds[i]) == Success(true)
    requires "name" in mds[i] && mds[i]["name"].Str?
    requires forall m :: 0 <= m < |mds[i]["name"].s| ==> !IsDigit(mds[i]["name"].s[m])
    ensures TagDocuments(mds).Failure?
  {
    if TagDocuments(mds).Success? {
      TagDocumentsNeeds(mds);
    }
  }

  // ---------------------------------------------------------------------------
  // The fetched documents, updated in place (lines 43-53)
  // ---------------------------------------------------------------------------

  /** Lines 43-44. */
  method MarkDocuments(docs: seq<Document>)
    requires Distinct(docs)
    modifies docs
    ensures Metas(docs) == MarkAll(old(Metas(docs)))
  {
    ghost var m0 := Metas(docs);
    var j := 0;
    while j < |docs|
      invariant 0 <= j <= |docs|
      invariant forall k :: 0 <= k < |docs| ==>
                  docs[k].metadata == if k < j then m0[k]["embedding_type" := Str("document")] else m0[k]
    {
      assert forall k :: 0 <= k < |docs| && k != j ==> docs[k] != docs[j];
      docs[j].metadata := docs[j].metadata["embedding_type" := Str("document")];
      j := j + 1;
    }
  }

  /** Once the selection of line 47 raises, later documents do not matter. */
  lemma {:induction false} SelectionStopsAtFailure(mds: seq<Metadata>, k: nat)
    requires k <= |mds| && SessionNotesIndices(mds[..k]).Failure?
    ensures SessionNotesIndices(mds) == SessionNotesIndices(mds[..k])
    decreases |mds|
  {
    if k < |mds| {
      var n := |mds| - 1;
      assert mds[..n][..k] == mds[..k];
      SelectionStopsAtFailure(mds[..n], k);
    } else {
      assert mds[..k] == mds;
    }
  }

  /** Line 47: the positions of the session-notes documents. */
  method SelectSessionNotes(docs: seq<Document>) returns (r: Result<seq<nat>, LoadError>)
    ensures r == SessionNotesIndices(Metas(docs))
  {
    ghost var mds := Metas(docs);
    var idxs: seq<nat> := [];
    var i := 0;
    while i < |docs|
      invariant 0 <= i <= |docs|
      invariant SessionNotesIndices(mds[..i]) == Success(idxs)
    {
      var b := IsSessionNotes(docs[i].metadata);
      SelectionStep(mds, i, idxs);
      if b.Failure? {
        return Failure(b.error);
      }
      if b.value {
        idxs := idxs + [i];
      }
      i := i + 1;
    }
    assert mds[..i] == mds;
    return Success(idxs);
  }

  /** Numbering leaves every name, and so every number, as it was. */
  lemma NumberedName(m0: seq<Metadata>, pre: seq<nat>, i: nat)
    requires forall k :: 0 <= k < |pre| ==> pre[k] < |m0| && SessionNumber(m0[pre[k]]).Success?
    requires i < |m0|
    ensures SessionNumber(Numbered(m0, pre)[i]) == SessionNumber(m0[i])
  {
    if i in pre {
      WithNumberAgain(m0[i]);
    }
  }

  /** One more listed document numbered: setting its number again changes
      nothing else. */
  lemma NumberedStep(m0: seq<Metadata>, idxs: seq<nat>, j: nat)
    requires forall k :: 0 <= k < |idxs| ==> idxs[k] < |m0|
    requires j < |idxs| && forall k :: 0 <= k <= j ==> SessionNumber(m0[idxs[k]]).Success?
    ensures Numbered(m0, idxs[..j + 1]) ==
              Numbered(m0, idxs[..j])[idxs[j] := WithNumber(Numbered(m0, idxs[..j])[idxs[j]])]
  {
    var i := idxs[j];
    WithNumberAgain(m0[i]);
    assert idxs[..j + 1] == idxs[..j] + [i];
  }

  /** A listed name with a number lets the numbering go on to the next. */
  lemma NumberingContinues(m0: seq<Metadata>, idxs: seq<nat>, j: nat)
    requires forall k :: 0 <= k < |idxs| ==> idxs[k] < |m0|
    requires j < |idxs| && SessionNumber(m0[idxs[j]]).Success?
    ensures NumberingError(m0, idxs[j..]) == NumberingError(m0, idxs[j + 1..])
  {
    assert idxs[j..][0] == idxs[j] && idxs[j..][1..] == idxs[j + 1..];
  }

  /** Names with numbers before position `j` raise nothing: the first
      error is found from `j` on. */
  lemma {:induction false} NumberingErrorSkip(m0: seq<Metadata>, idxs: seq<nat>, j: nat)
    requires forall k :: 0 <= k < |idxs| ==> idxs[k] < |m0|
    requires j <= |idxs| && forall k :: 0 <= k < j ==> SessionNumber(m0[idxs[k]]).Success?
    ensures NumberingError(m0, idxs) == NumberingError(m0, idxs[j..])
  {
    if j > 0 {
      NumberingErrorSkip(m0, idxs, j - 1);
      NumberingContinues(m0, idxs, j - 1);
    }
  }

  /** The first listed name without a number, reached with the metadata
      `ms`: the numbering raises that name's error, and `ms` is the
      numbering of the documents before it. */
  lemma NumberingStops(m0: seq<Metadata>, idxs: seq<nat>, j: nat, ms: seq<Metadata>)
    requires forall k :: 0 <= k < |idxs| ==> idxs[k] < |m0|
    requires j < |idxs| && forall k :: 0 <= k < j ==> SessionNumber(m0[idxs[k]]).Success?
    requires ms == Numbered(m0, idxs[..j])
    requires SessionNumber(ms[idxs[j]]).Failure?
    ensures SetSessionNumbers(m0, idxs).Failure?
    ensures SetSessionNumbers(m0, idxs).error == SessionNumber(ms[idxs[j]]).error
    ensures SetSessionNumbers(m0, idxs[..j]) == Success(ms)
  {
    NumberedName(m0, idxs[..j], idxs[j]);
    NumberingErrorSkip(m0, idxs, j);
    assert idxs[j..][0] == idxs[j];
  }

  /** Every listed name read, with the metadata `ms`: the numbering succeeds
      with `ms`. */
  lemma NumberingDone(m0: seq<Metadata>, idxs: seq<nat>, ms: seq<Metadata>)
    requires forall k :: 0 <= k < |idxs| ==> idxs[k] < |m0| && SessionNumber(m0[idxs[k]]).Success?
    requires ms == Numbered(m0, idxs)
    ensures SetSessionNumbers(m0, idxs) == Success(ms)
  {
  }

  /** Line 49 for the document at `i`: read the number from its name and,
      when there is one, store it. */
  method NumberOne(docs: seq<Document>, i: nat) returns (n: Result<int, LoadError>)
    requires Distinct(docs) && i < |docs|
    modifies docs[i]
    ensures n == SessionNumber(old(Metas(docs))[i])
    ensures n.Success? ==> Metas(docs) == old(Metas(docs))[i := WithNumber(old(Metas(docs))[i])]
    ensures n.Failure? ==> Metas(docs) == old(Metas(docs))
  {
    var md := docs[i].metadata;
    n := SessionNumber(md);
    if n.Success? {
      SetMetadata(docs, i, md["session_number" := Int(n.value)]);
    }
  }

  /** Lines 48-49: number each listed document in turn. If a name has no
      number the loop raises, leaving the earlier documents numbered. */
  method NumberSessionNotes(docs: seq<Document>, idxs: seq<nat>) returns (outcome: Result<(), LoadError>, ghost stopped: nat)
    requires Distinct(docs)
    requires forall k :: 0 <= k < |idxs| ==> idxs[k] < |docs|
    modifies docs
    ensures outcome.Success? <==> SetSessionNumbers(old(Metas(docs)), idxs).Success?
    ensures outcome.Success? ==> Metas(docs) == SetSessionNumbers(old(Metas(docs)), idxs).value
    ensures outcome.Failure? ==> outcome.error == SetSessionNumbers(old(Metas(docs)), idxs).error
    ensures outcome.Failure? ==>
              stopped < |idxs| && SetSessionNumbers(old(Metas(docs)), idxs[..stopped]) == Success(Metas(docs))
  {
    ghost var m0 := Metas(docs);
    var j := 0;
    while j < |idxs|
      invariant 0 <= j <= |idxs|
      invariant forall k :: 0 <= k < j ==> SessionNumber(m0[idxs[k]]).Success?
      invariant Metas(docs) == Numbered(m0, idxs[..j])
    {
      var n := NumberOne(docs, idxs[j]);
      if n.Failure? {
        NumberingStops(m0, idxs, j, Metas(docs));
        return Failure(n.error), j;
      }
      NumberedName(m0, idxs[..j], idxs[j]);
      NumberedStep(m0, idxs, j);
      j := j + 1;
    }
    assert idxs[..j] == idxs;
    NumberingDone(m0, idxs, Metas(docs));
    return Success(()), j;
  }

  /** Line 52: the position in `idxs` of the document `max` returns. */
  method FindLatest(docs: seq<Document>, idxs: seq<nat>) returns (r: Result<nat, LoadError>)
    requires forall k :: 0 <= k < |idxs| ==> idxs[k] < |docs|
    ensures r == LatestPosition(Metas(docs), idxs)
  {
    ghost var mds := Metas(docs);
    if |idxs| == 0 {
      return Failure(EmptyMax);
    }
    var first := CreatedTime(docs[idxs[0]].metadata);
    if first.Failure? {
      return Failure(first.error);
    }
    var best, bestKey := 0, first.value;
    var j := 1;
    while j < |idxs|
      invariant 1 <= j <= |idxs|
      invariant LatestPosition(mds, idxs) == MaxFrom(mds, idxs, j, best, bestKey)
    {
      var key := CreatedTime(docs[idxs[j]].metadata);
      if key.Failure? {
        return Failure(key.error);
      }
      var gt := Greater(key.value, bestKey);
      if gt.Failure? {
        return Failure(gt.error);
      }
      if gt.value {
        best, bestKey := j, key.value;
      }
      j := j + 1;
    }
    return Success(best);
  }

  /** Lines 43-53: tag the fetched documents in place. When a step raises,
      the documents are left as the earlier steps made them. */
  method TagFetchedDocuments(docs: seq<Document>) returns (outcome: Result<(), LoadError>)
    requires Distinct(docs)
    modifies docs
    ensures outcome.Success? <==> TagDocuments(old(Metas(docs))).Success?
    ensures outcome.Success? ==> Metas(docs) == TagDocuments(old(Metas(docs))).value
    ensures outcome.Failure? ==> outcome.error == TagDocuments(old(Metas(docs))).error
  {
    ghost var m0 := Metas(docs);
    MarkDocuments(docs);
    var sel := SelectSessionNotes(docs);
    if sel.Failure? {
      return Failure(sel.error);
    }
    var idxs := sel.value;
    var numbered, _ := NumberSessionNotes(docs, idxs);
    if numbered.Failure? {
      return Failure(numbered.error);
    }
    var pos := FindLatest(docs, idxs);
    if pos.Failure? {
      return Failure(pos.error);
    }
    LatestPositionIsFirstMax(Metas(docs), idxs);
    var l := idxs[pos.value];
    SetMetadata(docs, l, docs[l].metadata["is_latest" := Bool(true)]);
    return Success(());
  }

  // ---------------------------------------------------------------------------
  // The vector store (lines 60-68)
  // ---------------------------------------------------------------------------

  /** One stored embedding: its collection, the embedded text and its
      metadata. The vector itself comes from the embedding model and is not
      part of this model. */
  datatype Record = Record(collection: string, content: string, metadata: Metadata)

  /** The records `add_documents` writes for `vs`, in order. */
  function RecordsOf(collection: string, vs: seq<DocValue>): seq<Record>
  {
    if vs == [] then [] else [Record(collection, vs[0].pageContent, vs[0].metadata)] + RecordsOf(collection, vs[1..])
  }

  /** The records of one collection, in order. */
  function InCollection(records: seq<Record>, collection: string): (rs: seq<Record>)
    ensures forall r :: r in rs <==> r in records && r.collection == collection
  {
    if records == [] then []
    else
      var rest := InCollection(records[1..], collection);
      if records[0].collection == collection then [records[0]] + rest else rest
  }

  /** The records left after deleting a collection, in order. */
  function Without(records: seq<Record>, collection: string): (rs: seq<Record>)
    ensures forall r :: r in rs <==> r in records && r.collection != collection
  {
    if records == [] then []
    else
      var rest := Without(records[1..], collection);
      if records[0].collection == collection then rest else [records[0]] + rest
  }

  lemma {:induction false} InCollectionAppend(a: seq<Record>, b: seq<Record>, c: string)
    ensures InCollection(a + b, c) == InCollection(a, c) + InCollection(b, c)
  {
    if a == [] {
      assert a + b == b;
    } else {
      assert (a + b)[1..] == a[1..] + b;
      InCollectionAppend(a[1..], b, c);
    }
  }

  lemma {:induction false} InCollectionWithout(records: seq<Record>, c: string, c': string)
    ensures InCollection(Without(records, c), c) == []
    ensures c' != c ==> InCollection(Without(records, c), c') == InCollection(records, c')
  {
    if records != [] {
      InCollectionWithout(records[1..], c, c');
    }
  }

  lemma {:induction false} InCollectionRecordsOf(vs: seq<DocValue>, c: string, c': string)
    ensures InCollection(RecordsOf(c, vs), c) == RecordsOf(c, vs)
    ensures c' != c ==> InCollection(RecordsOf(c, vs), c') == []
  {
    if vs != [] {
      InCollectionRecordsOf(vs[1..], c, c');
    }
  }

  class VectorStore {
    var records: seq<Record>

    constructor ()
      ensures records == []
    {
      records := [];
    }

    /** `PGVector.from_existing_index(..., pre_delete_collection=reset)`:
        with `reset` the collection's records are deleted first. */
    method Open(collection: string, reset: bool)
      modifies this
      ensures records == if reset then Without(old(records), collection) else old(records)
    {
      if reset {
        records := Without(records, collection);
      }
    }

    /** `db.add_documents(documents=docs)`: one record per document, appended. */
    method AddDocuments(collection: string, docs: seq<Document>)
      modifies this
      ensures records == old(records) + RecordsOf(collection, old(Snapshot(docs)))
    {
      records := records + RecordsOf(collection, Snapshot(docs));
    }
  }

  /** What a successful load leaves in the store: with `reset`, the target
      collection holds exactly this load's chunks followed by its documents;
      without it, they follow the collection's earlier records; other
      collections are untouched. */
  lemma CollectionAfterLoad(before: seq<Record>, collection: string, reset: bool,
                            chunks: seq<DocValue>, docs: seq<DocValue>, other: string)
    ensures var after := (if reset then Without(before, collection) else before)
                         + RecordsOf(collection, chunks) + RecordsOf(collection, docs);
            && InCollection(after, collection)
               == (if reset then [] else InCollection(before, collection))
                  + RecordsOf(collection, chunks) + RecordsOf(collection, docs)
            && (other != collection ==> InCollection(after, other) == InCollection(before, other))
  {
    var kept := if reset then Without(before, collection) else before;
    InCollectionAppend(kept + RecordsOf(collection, chunks), RecordsOf(collection, docs), collection);
    InCollectionAppend(kept, RecordsOf(collection, chunks), collection);
    InCollectionAppend(kept + RecordsOf(collection, chunks), RecordsOf(collection, docs), other);
    InCollectionAppend(kept, RecordsOf(collection, chunks), other);
    InCollectionWithout(before, collection, other);
    InCollectionRecordsOf(chunks, collection, other);
    InCollectionRecordsOf(docs, collection, other);
  }

  // ---------------------------------------------------------------------------
  // load_pgvector (lines 40-68)
  // ---------------------------------------------------------------------------

  /** Split the fetched documents into chunks, tag the documents in place,
      then write the chunks followed by the documents. If the tagging raises,
      nothing is written. */
  method LoadPgvector(docs: seq<Document>, splitText: string -> seq<string>,
                      store: VectorStore, collection: string, reset: bool)
    returns (outcome: Result<(), LoadError>)
    requires Distinct(docs)
    modifies docs, store
    ensures outcome.Success? <==> TagDocuments(old(Metas(docs))).Success?
    ensures outcome.Failure? ==> outcome.error == TagDocuments(old(Metas(docs))).error
    ensures outcome.Failure? ==> store.records == old(store.records)
    ensures outcome.Success? ==> Metas(docs) == TagDocuments(old(Metas(docs))).value
    ensures outcome.Success? ==>
              store.records == (if reset then Without(old(store.records), collection) else old(store.records))
                               + RecordsOf(collection, SplitDocumentsSpec(old(Snapshot(docs)), splitText))
                               + RecordsOf(collection, Snapshot(docs))
  {
    var chunks;
    chunks, outcome := SplitThenTag(docs, splitText);
    if outcome.Success? {
      ghost var docValues := Snapshot(docs);
      Write(store, collection, reset, chunks, docs);
      assert Snapshot(docs) == docValues;
    }
  }

  /** Lines 40-53: the chunks are made from the documents as fetched, then
      the documents are tagged; the chunks do not share the documents'
      metadata, so the tagging does not reach them. */
  method SplitThenTag(docs: seq<Document>, splitText: string -> seq<string>)
    returns (chunks: seq<Document>, outcome: Result<(), LoadError>)
    requires Distinct(docs)
    modifies docs
    ensures forall k :: 0 <= k < |chunks| ==> fresh(chunks[k])
    ensures Snapshot(chunks) == SplitDocumentsSpec(old(Snapshot(docs)), splitText)
    ensures outcome.Success? <==> TagDocuments(old(Metas(docs))).Success?
    ensures outcome.Failure? ==> outcome.error == TagDocuments(old(Metas(docs))).error
    ensures outcome.Success? ==> Metas(docs) == TagDocuments(old(Metas(docs))).value
  {
    chunks := SplitDocuments(docs, splitText);
    forall k, j | 0 <= k < |chunks| && 0 <= j < |docs|
      ensures chunks[k] != docs[j]
    {
    }
    outcome := TagBeside(docs, chunks);
  }

  /** Tagging the documents leaves every document outside `docs` as it was. */
  method TagBeside(docs: seq<Document>, others: seq<Document>) returns (outcome: Result<(), LoadError>)
    requires Distinct(docs)
    requires forall k, j :: 0 <= k < |others| && 0 <= j < |docs| ==> others[k] != docs[j]
    modifies docs
    ensures outcome.Success? <==> TagDocuments(old(Metas(docs))).Success?
    ensures outcome.Failure? ==> outcome.error == TagDocuments(old(Metas(docs))).error
    ensures outcome.Success? ==> Metas(docs) == TagDocuments(old(Metas(docs))).value
    ensures Snapshot(others) == old(Snapshot(others))
  {
    outcome := TagFetchedDocuments(docs);
  }

  /** Lines 60-68: open the collection (emptying it with `reset`), then add
      the chunks, then the documents. */
  method Write(store: VectorStore, collection: string, reset: bool, chunks: seq<Document>, docs: seq<Document>)
    modifies store
    ensures store.records == (if reset then Without(old(store.records), collection) else old(store.records))
                             + RecordsOf(collection, old(Snapshot(chunks))) + RecordsOf(collection, old(Snapshot(docs)))
    ensures Metas(docs) == old(Metas(docs))
    ensures Snapshot(docs) == old(Snapshot(docs))
  {
    ghost var chunkValues, docValues := Snapshot(chunks), Snapshot(docs);
    store.Open(collection, reset);
    assert Snapshot(chunks) == chunkValues && Snapshot(docs) == docValues;
    store.AddDocuments(collection, chunks);
    assert Snapshot(docs) == docValues;
    store.AddDocuments(collection, docs);
  }
}
