/** The document objects the loader passes around: a page of text with a
    metadata dictionary. The Python code changes `doc.metadata[...]` in place,
    so a document is an object whose metadata field is mutable; no operation
    of the loader reassigns its text. */
module Documents {

  /** The JSON-like values that appear in document metadata. */
  datatype Value = Str(s: string) | Int(i: int) | Bool(b: bool) | StrList(items: seq<string>)

  type Metadata = map<string, Value>

  /** A document's contents at one moment, as a value. */
  datatype DocValue = DocValue(pageContent: string, metadata: Metadata)

  class Document {
    const pageContent: string
    var metadata: Metadata

    constructor (pageContent: string, metadata: Metadata)
      ensures this.pageContent == pageContent && this.metadata == metadata
    {
      this.pageContent := pageContent;
      this.metadata := metadata;
    }

    function View(): DocValue
      reads this
    {
      DocValue(pageContent, metadata)
    }
  }

  /** The values of a sequence of documents, in order. */
  function Snapshot(ds: seq<Document>): (vs: seq<DocValue>)
    reads ds
    ensures |vs| == |ds|
    ensures forall i :: 0 <= i < |ds| ==> vs[i] == ds[i].View()
  {
    if ds == [] then [] else [ds[0].View()] + Snapshot(ds[1..])
  }

  /** The metadata of a sequence of documents, in order. */
  function Metas(ds: seq<Document>): (ms: seq<Metadata>)
    reads ds
    ensures |ms| == |ds|
    ensures forall i :: 0 <= i < |ds| ==> ms[i] == ds[i].metadata
  {
    if ds == [] then [] else [ds[0].metadata] + Metas(ds[1..])
  }

  lemma SnapshotAppend(a: seq<Document>, b: seq<Document>)
    ensures Snapshot(a + b) == Snapshot(a) + Snapshot(b)
  {
  }

  /** No document object occurs twice. */
  predicate Distinct(ds: seq<Document>) {
    forall i, j :: 0 <= i < j < |ds| ==> ds[i] != ds[j]
  }

  lemma DistinctConcat(a: seq<Document>, b: seq<Document>)
    requires Distinct(a) && Distinct(b)
    requires forall i, j :: 0 <= i < |a| && 0 <= j < |b| ==> a[i] != b[j]
    ensures Distinct(a + b)
  {
  }

  /** `ds[i].metadata = md`: only that document changes. */
  method SetMetadata(ds: seq<Document>, i: nat, md: Metadata)
    requires Distinct(ds) && i < |ds|
    modifies ds[i]
    ensures Metas(ds) == old(Metas(ds))[i := md]
  {
    ghost var before := Metas(ds);
    ds[i].metadata := md;
    assert forall k :: 0 <= k < |ds| && k != i ==> ds[k] != ds[i];
    assert Metas(ds) == before[i := md];
  }
}
