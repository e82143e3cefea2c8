/** Cleaning of document text and tagging of chunks before they are embedded
    (`replace_non_ascii` and `split_documents`). The text splitter is a
    library whose algorithm is not part of this model: it is a parameter
    `splitText` that maps a text to its chunk texts. */
module LoadUtil {
  import opened PyStr
  import opened Documents

  // ---------------------------------------------------------------------------
  // replace_non_ascii on text
  // ---------------------------------------------------------------------------

  const PrivateUseFi: char := '\U{E05C}'
  const LigatureFi: char := '\U{FB01}'

  predicate IsAscii(c: char) {
    (c as int) < 128
  }

  /** `.encode("ascii", "ignore").decode()`: drop every non-ASCII character. */
  function AsciiOnly(s: string): (r: string)
  {
    if s == [] then [] else (if IsAscii(s[0]) then [s[0]] else []) + AsciiOnly(s[1..])
  }

  /** The chain of replacements followed by the ASCII filter, as written:
      U+E05C and U+FB01 become "fi", NUL becomes a space (the chain names NUL
      twice, once as "\x00" and once as "\u0000"), then non-ASCII is dropped. */
  function ReplaceNonAsciiText(s: string): string
  {
    AsciiOnly(Replace(Replace(Replace(Replace(s, [PrivateUseFi], "fi"), [LigatureFi], "fi"), ['\0'], " "), ['\0'], " "))
  }

  /** What each input character becomes, independently of its neighbours. */
  function CharImage(c: char): string
  {
    if c == PrivateUseFi || c == LigatureFi then "fi"
    else if c == '\0' then " "
    else if IsAscii(c) then [c]
    else []
  }

  /** Reference definition: the images of the characters, in input order. */
  function Cleaned(s: string): string
  {
    if s == [] then [] else CharImage(s[0]) + Cleaned(s[1..])
  }

  lemma ReplaceCharStep(s: string, c: char, rep: string)
    requires s != []
    ensures Replace(s, [c], rep) == (if s[0] == c then rep else [s[0]]) + Replace(s[1..], [c], rep)
  {
    assert SubstringAt(s, [c], 0) <==> s[0] == c by {
      assert s[0..1] == [s[0]];
    }
  }

  lemma {:induction false} ReplaceCharAppend(x: string, y: string, c: char, rep: string)
    ensures Replace(x + y, [c], rep) == Replace(x, [c], rep) + Replace(y, [c], rep)
    decreases |x|
  {
    if x == [] {
      assert x + y == y;
    } else {
      var head := if x[0] == c then rep else [x[0]];
      calc {
        Replace(x + y, [c], rep);
      == { ReplaceCharStep(x + y, c, rep); assert (x + y)[0] == x[0]; assert (x + y)[1..] == x[1..] + y; }
        head + Replace(x[1..] + y, [c], rep);
      == { ReplaceCharAppend(x[1..], y, c, rep); }
        head + (Replace(x[1..], [c], rep) + Replace(y, [c], rep));
      == { ReplaceCharStep(x, c, rep); }
        Replace(x, [c], rep) + Replace(y, [c], rep);
      }
    }
  }

  lemma {:induction false} ReplaceCharAbsent(s: string, c: char, rep: string)
    requires c !in s
    ensures Replace(s, [c], rep) == s
    decreases |s|
  {
    if s != [] {
      ReplaceCharStep(s, c, rep);
      ReplaceCharAbsent(s[1..], c, rep);
      assert [s[0]] + s[1..] == s;
    }
  }

  lemma {:induction false} AsciiOnlyAppend(x: string, y: string)
    ensures AsciiOnly(x + y) == AsciiOnly(x) + AsciiOnly(y)
    decreases |x|
  {
    if x == [] {
      assert x + y == y;
    } else {
      assert (x + y)[1..] == x[1..] + y;
      AsciiOnlyAppend(x[1..], y);
    }
  }

  lemma ReplaceNonAsciiTextAppend(x: string, y: string)
    ensures ReplaceNonAsciiText(x + y) == ReplaceNonAsciiText(x) + ReplaceNonAsciiText(y)
  {
    var r1x, r1y := Replace(x, [PrivateUseFi], "fi"), Replace(y, [PrivateUseFi], "fi");
    ReplaceCharAppend(x, y, PrivateUseFi, "fi");
    var r2x, r2y := Replace(r1x, [LigatureFi], "fi"), Replace(r1y, [LigatureFi], "fi");
    ReplaceCharAppend(r1x, r1y, LigatureFi, "fi");
    var r3x, r3y := Replace(r2x, ['\0'], " "), Replace(r2y, ['\0'], " ");
    ReplaceCharAppend(r2x, r2y, '\0', " ");
    var r4x, r4y := Replace(r3x, ['\0'], " "), Replace(r3y, ['\0'], " ");
    ReplaceCharAppend(r3x, r3y, '\0', " ");
    AsciiOnlyAppend(r4x, r4y);
  }

  lemma ReplaceNonAsciiTextChar(c: char)
    ensures ReplaceNonAsciiText([c]) == CharImage(c)
  {
    var r1 := Replace([c], [PrivateUseFi], "fi");
    ReplaceCharStep([c], PrivateUseFi, "fi");
    assert r1 == if c == PrivateUseFi then "fi" else [c];
    var r2 := Replace(r1, [LigatureFi], "fi");
    if c == PrivateUseFi {
      ReplaceCharAbsent(r1, LigatureFi, "fi");
    } else {
      ReplaceCharStep(r1, LigatureFi, "fi");
    }
    assert r2 == if c == PrivateUseFi || c == LigatureFi then "fi" else [c];
    var r3 := Replace(r2, ['\0'], " ");
    if c == PrivateUseFi || c == LigatureFi {
      ReplaceCharAbsent(r2, '\0', " ");
    } else {
      ReplaceCharStep(r2, '\0', " ");
    }
    var r4 := Replace(r3, ['\0'], " ");
    ReplaceCharAbsent(r3, '\0', " ");
    assert r4 == if c == PrivateUseFi || c == LigatureFi then "fi" else if c == '\0' then " " else [c];
  }

  /** The replacement chain acts character by character: every character is
      replaced by its image, and the images stay in input order. */
  lemma {:induction false} ReplaceNonAsciiTextIsCleaned(s: string)
    ensures ReplaceNonAsciiText(s) == Cleaned(s)
    decreases |s|
  {
    if s == [] {
      assert Replace([], [PrivateUseFi], "fi") == [] by { ReplaceCharAbsent([], PrivateUseFi, "fi"); }
      ReplaceCharAbsent([], LigatureFi, "fi");
      ReplaceCharAbsent([], '\0', " ");
    } else {
      assert s == [s[0]] + s[1..];
      ReplaceNonAsciiTextAppend([s[0]], s[1..]);
      ReplaceNonAsciiTextChar(s[0]);
      ReplaceNonAsciiTextIsCleaned(s[1..]);
    }
  }

  /** The cleaned text is pure ASCII and holds no NUL character. */
  lemma {:induction false} CleanedIsAsciiWithoutNul(s: string)
    ensures forall i :: 0 <= i < |Cleaned(s)| ==> IsAscii(Cleaned(s)[i]) && Cleaned(s)[i] != '\0'
    decreases |s|
  {
    if s != [] {
      CleanedIsAsciiWithoutNul(s[1..]);
    }
  }

  /** Text that is already ASCII without NUL is left exactly as it is. */
  lemma {:induction false} CleanedKeepsPlainAscii(s: string)
    requires forall i :: 0 <= i < |s| ==> IsAscii(s[i]) && s[i] != '\0'
    ensures Cleaned(s) == s
    decreases |s|
  {
    if s != [] {
      CleanedKeepsPlainAscii(s[1..]);
      assert [s[0]] + s[1..] == s;
    }
  }

  /** `replace_non_ascii` only uses ASCII and never produces NUL. */
  lemma ReplaceNonAsciiTextIsAscii(s: string)
    ensures forall i :: 0 <= i < |ReplaceNonAsciiText(s)| ==>
              IsAscii(ReplaceNonAsciiText(s)[i]) && ReplaceNonAsciiText(s)[i] != '\0'
  {
    ReplaceNonAsciiTextIsCleaned(s);
    CleanedIsAsciiWithoutNul(s);
  }

  /** A second pass finds nothing to replace and nothing to drop. */
  lemma ReplaceNonAsciiTextIdempotent(s: string)
    ensures ReplaceNonAsciiText(ReplaceNonAsciiText(s)) == ReplaceNonAsciiText(s)
  {
    var t := ReplaceNonAsciiText(s);
    ReplaceNonAsciiTextIsAscii(s);
    ReplaceNonAsciiTextIsCleaned(t);
    CleanedKeepsPlainAscii(t);
  }

  /** Cleaning a concatenation cleans each part: nothing is reordered, and
      the ligatures and NUL are replaced wherever they stand. */
  lemma ReplaceNonAsciiTextAt(x: string, c: char, y: string)
    ensures ReplaceNonAsciiText(x + [c] + y) == ReplaceNonAsciiText(x) + CharImage(c) + ReplaceNonAsciiText(y)
  {
    ReplaceNonAsciiTextAppend(x + [c], y);
    ReplaceNonAsciiTextAppend(x, [c]);
    ReplaceNonAsciiTextChar(c);
  }

  // ---------------------------------------------------------------------------
  // replace_non_ascii on a document
  // ---------------------------------------------------------------------------

  function CleanDocValue(v: DocValue): DocValue
  {
    DocValue(ReplaceNonAsciiText(v.pageContent), v.metadata)
  }

  /** A new document with the cleaned text and the same metadata. */
  method ReplaceNonAscii(doc: Document) returns (clean: Document)
    ensures fresh(clean)
    ensures clean.View() == CleanDocValue(doc.View())
  {
    var content := ReplaceNonAsciiText(doc.pageContent);
    clean := new Document(content, doc.metadata);
  }

  // ---------------------------------------------------------------------------
  // split_documents
  // ---------------------------------------------------------------------------

  /** The chunks a splitter makes of one document: one per piece of its text,
      each with a copy of the document's metadata. */
  function Pieces(v: DocValue, splitText: string -> seq<string>): (cs: seq<DocValue>)
    ensures |cs| == |splitText(v.pageContent)|
    ensures forall k :: 0 <= k < |cs| ==> cs[k] == DocValue(splitText(v.pageContent)[k], v.metadata)
  {
    var ps := splitText(v.pageContent);
    seq(|ps|, k requires 0 <= k < |ps| => DocValue(ps[k], v.metadata))
  }

  /** The splitter library on a list of documents: the chunks of each
      document in turn. */
  function SplitValues(vs: seq<DocValue>, splitText: string -> seq<string>): seq<DocValue>
  {
    if vs == [] then [] else SplitValues(vs[..|vs| - 1], splitText) + Pieces(vs[|vs| - 1], splitText)
  }

  lemma SplitValuesStep(vs: seq<DocValue>, i: nat, splitText: string -> seq<string>)
    requires i < |vs|
    ensures SplitValues(vs[..i + 1], splitText) == SplitValues(vs[..i], splitText) + Pieces(vs[i], splitText)
  {
    assert vs[..i + 1][..i] == vs[..i];
  }

  function TagChunk(v: DocValue): DocValue
  {
    DocValue(v.pageContent, v.metadata["embedding_type" := Str("chunk")])
  }

  function CleanAll(vs: seq<DocValue>): (ws: seq<DocValue>)
    ensures |ws| == |vs|
    ensures forall i :: 0 <= i < |vs| ==> ws[i] == CleanDocValue(vs[i])
  {
    seq(|vs|, i requires 0 <= i < |vs| => CleanDocValue(vs[i]))
  }

  function TagAll(vs: seq<DocValue>): (ws: seq<DocValue>)
    ensures |ws| == |vs|
    ensures forall i :: 0 <= i < |vs| ==> ws[i] == TagChunk(vs[i])
  {
    seq(|vs|, i requires 0 <= i < |vs| => TagChunk(vs[i]))
  }

  /** What `split_documents` returns, phase by phase as written: clean every
      document, split the cleaned documents, tag every chunk. */
  function SplitDocumentsSpec(vs: seq<DocValue>, splitText: string -> seq<string>): seq<DocValue>
  {
    TagAll(SplitValues(CleanAll(vs), splitText))
  }

  /** The chunks of one document, described directly: each piece of its
      cleaned text, with its metadata plus `embedding_type = "chunk"`. */
  function ChunksOf(v: DocValue, splitText: string -> seq<string>): (cs: seq<DocValue>)
    ensures |cs| == |splitText(ReplaceNonAsciiText(v.pageContent))|
  {
    var ps := splitText(ReplaceNonAsciiText(v.pageContent));
    seq(|ps|, k requires 0 <= k < |ps| => DocValue(ps[k], v.metadata["embedding_type" := Str("chunk")]))
  }

  /** The three phases amount to: each document, in order, contributes the
      chunks of its cleaned text, every one tagged as a chunk. */
  lemma {:induction false} SplitDocumentsPerDocument(vs: seq<DocValue>, v: DocValue, splitText: string -> seq<string>)
    ensures SplitDocumentsSpec([], splitText) == []
    ensures SplitDocumentsSpec(vs + [v], splitText) == SplitDocumentsSpec(vs, splitText) + ChunksOf(v, splitText)
  {
    var ws := vs + [v];
    assert CleanAll(ws)[..|ws| - 1] == CleanAll(vs);
    var a := SplitValues(CleanAll(vs), splitText);
    var b := Pieces(CleanDocValue(v), splitText);
    assert SplitValues(CleanAll(ws), splitText) == a + b;
    assert TagAll(a + b) == TagAll(a) + TagAll(b);
    assert TagAll(b) == ChunksOf(v, splitText);
  }

  /** Every chunk is tagged `embedding_type = "chunk"`, and otherwise carries
      exactly the metadata of a document it came from. */
  lemma {:induction false} SplitDocumentsMetadata(vs: seq<DocValue>, splitText: string -> seq<string>, c: DocValue)
    requires c in SplitDocumentsSpec(vs, splitText)
    ensures c.metadata["embedding_type"] == Str("chunk")
    ensures exists v :: v in vs && c.metadata == v.metadata["embedding_type" := Str("chunk")]
    decreases |vs|
  {
    var n := |vs|;
    assert n > 0;
    SplitDocumentsPerDocument(vs[..n - 1], vs[n - 1], splitText);
    assert vs[..n - 1] + [vs[n - 1]] == vs;
    if c in SplitDocumentsSpec(vs[..n - 1], splitText) {
      SplitDocumentsMetadata(vs[..n - 1], splitText, c);
      var v :| v in vs[..n - 1] && c.metadata == v.metadata["embedding_type" := Str("chunk")];
      assert v in vs;
    } else {
      assert c in ChunksOf(vs[n - 1], splitText);
      assert vs[n - 1] in vs;
    }
  }

  /** Chunks are made before any session tagging, so if the documents carry
      no `session_number` or `is_latest` key, neither does any chunk. */
  lemma ChunksCarryNoSessionKeys(vs: seq<DocValue>, splitText: string -> seq<string>)
    requires forall v :: v in vs ==> "session_number" !in v.metadata && "is_latest" !in v.metadata
    ensures forall c :: c in SplitDocumentsSpec(vs, splitText) ==>
              "session_number" !in c.metadata && "is_latest" !in c.metadata
  {
    forall c | c in SplitDocumentsSpec(vs, splitText)
      ensures "session_number" !in c.metadata && "is_latest" !in c.metadata
    {
      SplitDocumentsMetadata(vs, splitText, c);
    }
  }

  /** The splitter library on one document: one new document per piece of
      its text, each with a copy of its metadata. */
  method SplitOne(v: DocValue, splitText: string -> seq<string>) returns (cs: seq<Document>)
    ensures forall k :: 0 <= k < |cs| ==> fresh(cs[k])
    ensures Distinct(cs)
    ensures Snapshot(cs) == Pieces(v, splitText)
  {
    var pieces := splitText(v.pageContent);
    cs := [];
    var j := 0;
    while j < |pieces|
      invariant 0 <= j <= |pieces|
      invariant |cs| == j
      invariant forall k :: 0 <= k < j ==> fresh(cs[k])
      invariant Distinct(cs)
      invariant forall k :: 0 <= k < j ==> cs[k].View() == DocValue(pieces[k], v.metadata)
    {
      var c := new Document(pieces[j], v.metadata);
      cs := cs + [c];
      j := j + 1;
    }
  }

  /** The splitter library's `split_documents`: the chunks of each document
      in turn. */
  method SplitWithSplitter(docs: seq<Document>, splitText: string -> seq<string>) returns (chunks: seq<Document>)
    ensures forall k :: 0 <= k < |chunks| ==> fresh(chunks[k])
    ensures Distinct(chunks)
    ensures Snapshot(chunks) == SplitValues(old(Snapshot(docs)), splitText)
  {
    ghost var dv := Snapshot(docs);
    chunks := [];
    var i := 0;
    while i < |docs|
      invariant 0 <= i <= |docs|
      invariant forall k :: 0 <= k < |chunks| ==> fresh(chunks[k])
      invariant Distinct(chunks)
      invariant Snapshot(chunks) == SplitValues(dv[..i], splitText)
      invariant forall k :: 0 <= k < |docs| ==> docs[k].View() == dv[k]
    {
      var cs := SplitOne(docs[i].View(), splitText);
      forall k, l | 0 <= k < |chunks| && 0 <= l < |cs|
        ensures chunks[k] != cs[l]
      {
      }
      SnapshotAppend(chunks, cs);
      DistinctConcat(chunks, cs);
      SplitValuesStep(dv, i, splitText);
      chunks := chunks + cs;
      i := i + 1;
    }
    assert dv[..i] == dv;
  }

  /** `[replace_non_ascii(doc) for doc in documents]`. */
  method ReplaceNonAsciiAll(docs: seq<Document>) returns (clean: seq<Document>)
    ensures forall k :: 0 <= k < |clean| ==> fresh(clean[k])
    ensures Snapshot(clean) == CleanAll(Snapshot(docs))
  {
    clean := [];
    var i := 0;
    while i < |docs|
      invariant 0 <= i <= |docs|
      invariant |clean| == i
      invariant forall k :: 0 <= k < i ==> fresh(clean[k]) && clean[k].View() == CleanDocValue(docs[k].View())
    {
      var c := ReplaceNonAscii(docs[i]);
      clean := clean + [c];
      i := i + 1;
    }
  }

  /** Lines 41-42: mark every chunk's metadata with `embedding_type = "chunk"`. */
  method TagChunks(chunks: seq<Document>)
    requires Distinct(chunks)
    modifies chunks
    ensures Snapshot(chunks) == TagAll(old(Snapshot(chunks)))
  {
    ghost var split := Snapshot(chunks);
    var j := 0;
    while j < |chunks|
      invariant 0 <= j <= |chunks|
      invariant forall k :: 0 <= k < |chunks| ==> chunks[k].View() == if k < j then TagChunk(split[k]) else split[k]
    {
      assert forall k :: 0 <= k < |chunks| && k != j ==> chunks[k] != chunks[j];
      chunks[j].metadata := chunks[j].metadata["embedding_type" := Str("chunk")];
      j := j + 1;
    }
  }

  /** `split_documents`: clean every document, split the cleaned documents,
      then mark every chunk's metadata with `embedding_type = "chunk"`. The
      input documents are not changed. */
  method SplitDocuments(docs: seq<Document>, splitText: string -> seq<string>) returns (chunks: seq<Document>)
    ensures forall k :: 0 <= k < |chunks| ==> fresh(chunks[k])
    ensures Distinct(chunks)
    ensures Snapshot(chunks) == SplitDocumentsSpec(old(Snapshot(docs)), splitText)
  {
    var clean := ReplaceNonAsciiAll(docs);
    chunks := SplitWithSplitter(clean, splitText);
    TagChunks(chunks);
  }
}
