/** `Chunk.generate_metadata` and the choice of documents made by
    `Chunk.print_n_documents`. */
module ChunkDocuments {
  import opened PyStr
  import opened PyPath

  /** A LangChain `Document`: its text and its metadata dictionary, which
      `generate_metadata` updates in place. */
  class Document {
    var pageContent: string
    var metadata: map<string, string>

    constructor (pageContent: string, metadata: map<string, string>)
      ensures this.pageContent == pageContent && this.metadata == metadata
    {
      this.pageContent := pageContent;
      this.metadata := metadata;
    }
  }

  /** The metadata key that is rewritten. */
  const SourceKey: string := "source"

  /** The rewrite applied to one document's metadata: when `source` ends
      with `.txt`, every occurrence of `.txt` in it is deleted. Only
      `source` can change, and no key is added: a missing `source` reads as
      `""`, which does not end with `.txt`. */
  function NormalizeSource(md: map<string, string>): (r: map<string, string>)
    ensures r.Keys == md.Keys
    ensures forall k :: k in md && k != SourceKey ==> r[k] == md[k]
  {
    var source := if SourceKey in md then md[SourceKey] else "";
    if EndsWith(source, TxtSuffix) then md[SourceKey := RemoveAll(source, TxtSuffix)] else md
  }

  /** The metadata of a document that occurs `k` times in the list: the
      rewrite is applied once per occurrence, and however often it is
      applied it adds no key and touches no key but `source`. */
  function NormalizeTimes(md: map<string, string>, k: nat): (r: map<string, string>)
    ensures r.Keys == md.Keys
    ensures forall key :: key in md && key != SourceKey ==> r[key] == md[key]
  {
    if k == 0 then md else NormalizeSource(NormalizeTimes(md, k - 1))
  }

  lemma NormalizeTimesNext(md: map<string, string>, k: nat)
    ensures NormalizeTimes(md, k + 1) == NormalizeSource(NormalizeTimes(md, k))
  {
  }

  /** The body of the loop in `generate_metadata`, on one document. */
  method RewriteSource(doc: Document)
    modifies doc
    ensures doc.pageContent == old(doc.pageContent)
    ensures doc.metadata == NormalizeSource(old(doc.metadata))
  {
    var sourcePath := if "source" in doc.metadata then doc.metadata["source"] else "";
    if EndsWith(sourcePath, ".txt") {
      doc.metadata := doc.metadata["source" := RemoveAll(sourcePath, ".txt")];
    }
  }

  /** `generate_metadata`: rewrites the metadata of each document in turn
      and returns the same list. Page contents are untouched; a document
      that the list holds several times is rewritten once per occurrence. */
  method GenerateMetadata(documents: seq<Document>) returns (result: seq<Document>)
    modifies documents
    ensures result == documents
    ensures forall d :: d in documents ==> d.pageContent == old(d.pageContent)
    ensures forall d :: d in documents ==>
              d.metadata == NormalizeTimes(old(d.metadata), multiset(documents)[d])
    ensures (forall i, j :: 0 <= i < j < |documents| ==> documents[i] != documents[j]) ==>
              forall d :: d in documents ==> d.metadata == NormalizeSource(old(d.metadata))
  {
    for i := 0 to |documents|
      invariant forall d :: d in documents ==> d.pageContent == old(d.pageContent)
      invariant forall d :: d in documents ==>
                  d.metadata == NormalizeTimes(old(d.metadata), multiset(documents[..i])[d])
    {
      var doc := documents[i];
      assert documents[..i + 1] == documents[..i] + [doc];
      ghost var seen := multiset(documents[..i]);
      assert multiset(documents[..i + 1]) == seen + multiset{doc};
      label before:
      RewriteSource(doc);
      forall d | d in documents
        ensures d.metadata == NormalizeTimes(old(d.metadata), multiset(documents[..i + 1])[d])
      {
        if d != doc {
          assert d.metadata == old@before(d.metadata);
          assert multiset(documents[..i + 1])[d] == seen[d];
        } else {
          assert multiset(documents[..i + 1])[d] == seen[d] + 1;
          NormalizeTimesNext(old(d.metadata), seen[d]);
        }
      }
    }
    assert documents[..|documents|] == documents;
    if forall i, j :: 0 <= i < j < |documents| ==> documents[i] != documents[j] {
      forall d | d in documents ensures d.metadata == NormalizeSource(old(d.metadata)) {
        DistinctOccursOnce(documents, d);
        NormalizeTimesNext(old(d.metadata), 0);
      }
    }
    result := documents;
  }

  /** In a list without repeated documents, each document's metadata is
      rewritten exactly once. */
  lemma {:induction false} DistinctOccursOnce(documents: seq<Document>, d: Document)
    requires forall i, j :: 0 <= i < j < |documents| ==> documents[i] != documents[j]
    requires d in documents
    ensures multiset(documents)[d] == 1
  {
    var init, last := documents[..|documents| - 1], documents[|documents| - 1];
    assert init + [last] == documents;
    if d == last {
      assert d !in init by {
        forall i | 0 <= i < |init| ensures init[i] != d {
          assert init[i] == documents[i];
        }
      }
    } else {
      assert d in init;
      DistinctOccursOnce(init, d);
    }
  }

  /** The new `source` value: with `.txt` deleted everywhere when it ended
      with `.txt`, unchanged otherwise. */
  lemma NormalizeSourceValue(md: map<string, string>)
    requires SourceKey in md
    ensures EndsWith(md[SourceKey], TxtSuffix) ==>
              NormalizeSource(md)[SourceKey] == RemoveAll(md[SourceKey], TxtSuffix)
    ensures !EndsWith(md[SourceKey], TxtSuffix) ==> NormalizeSource(md) == md
    ensures NormalizeSource(md) == md <==> !EndsWith(md[SourceKey], TxtSuffix)
  {
    var s := md[SourceKey];
    if EndsWith(s, TxtSuffix) {
      EndsWithContains(s, TxtSuffix);
      RemoveAllShrinks(s, TxtSuffix);
      assert NormalizeSource(md)[SourceKey] != s;
    }
  }

  /** Rewriting a second time changes nothing exactly when the first result
      no longer ends with `.txt`. */
  lemma NormalizeTwiceIff(md: map<string, string>)
    ensures NormalizeSource(NormalizeSource(md)) == NormalizeSource(md)
        <==> !(SourceKey in NormalizeSource(md) && EndsWith(NormalizeSource(md)[SourceKey], TxtSuffix))
  {
    var r := NormalizeSource(md);
    if SourceKey in r {
      NormalizeSourceValue(r);
    }
  }

  /** All occurrences are deleted, not only the trailing one. */
  lemma DeletesEveryOccurrence()
    ensures NormalizeSource(map[SourceKey := "d.txt/a.txt"])[SourceKey] == "d/a"
  {
    var s := "d.txt/a.txt";
    assert EndsWith(s, TxtSuffix);
    assert s[..4] != TxtSuffix && s[1..][..4] == TxtSuffix;
    assert s[1..][4..] == "/a.txt";
    assert "/a.txt"[..4] != TxtSuffix && "/a.txt"[1..] == "a.txt";
    assert "a.txt"[..4] != TxtSuffix && "a.txt"[1..] == ".txt";
    assert ".txt"[..4] == TxtSuffix && ".txt"[4..] == "";
    assert RemoveAll(".txt", TxtSuffix) == "";
    assert RemoveAll("a.txt", TxtSuffix) == "a";
    assert RemoveAll("/a.txt", TxtSuffix) == "/a";
  }

  /** The rewrite is not idempotent: `.t.txtxt.txt` becomes `.txt`, which a
      second pass turns into the empty string. */
  lemma NotIdempotentExample()
    ensures NormalizeSource(map[SourceKey := ".t.txtxt.txt"])[SourceKey] == ".txt"
    ensures NormalizeSource(map[SourceKey := ".txt"])[SourceKey] == ""
  {
    var s := ".t.txtxt.txt";
    assert EndsWith(s, TxtSuffix);
    assert s[..4][2] != TxtSuffix[2] && s[1..] == "t.txtxt.txt";
    assert "t.txtxt.txt"[..4] != TxtSuffix && "t.txtxt.txt"[1..] == ".txtxt.txt";
    assert ".txtxt.txt"[..4] == TxtSuffix && ".txtxt.txt"[4..] == "xt.txt";
    assert "xt.txt"[..4] != TxtSuffix && "xt.txt"[1..] == "t.txt";
    assert "t.txt"[..4] != TxtSuffix && "t.txt"[1..] == ".txt";
    assert ".txt"[..4] == TxtSuffix && ".txt"[4..] == "";
    assert RemoveAll(".txt", TxtSuffix) == "";
    assert RemoveAll("t.txt", TxtSuffix) == "t";
    assert RemoveAll("xt.txt", TxtSuffix) == "xt";
    assert RemoveAll(".txtxt.txt", TxtSuffix) == "xt";
    assert RemoveAll("t.txtxt.txt", TxtSuffix) == "txt";
    assert EndsWith(".txt", TxtSuffix);
  }

  // ---------------------------------------------------------------------
  // print_n_documents

  function Min(a: int, b: int): int { if a <= b then a else b }

  function Max(a: int, b: int): int { if a <= b then b else a }

  /** `num_docs`: the count announced, `len(documents)` when `n == -1` and
      `min(n, len(documents))` otherwise (negative when `n` is). */
  function NumDocs(n: int, len: nat): int {
    if n == -1 then len else Min(n, len)
  }

  /** Python's `s[:k]`: a negative `k` counts from the end. The result is a
      prefix of `s`, `k` long when that fits, otherwise as long as it can be. */
  function SliceTo<T>(s: seq<T>, k: int): (r: seq<T>)
    ensures |r| <= |s| && r == s[..|r|]
    ensures |r| == if k >= 0 then Min(k, |s|) else Max(0, |s| + k)
  {
    if k >= 0 then (if k <= |s| then s[..k] else s)
    else if -k <= |s| then s[..|s| + k]
    else []
  }

  /** `documents[:num_docs]`, the documents `print_n_documents` shows: all of
      them for `n == -1`, the first `n` (or all, if fewer) for `n >= 0`, and
      for `n < -1` all but the last `-n` (none when that is all of them). */
  function SelectedDocuments<T>(documents: seq<T>, n: int): (r: seq<T>)
    ensures n == -1 ==> r == documents
    ensures n >= 0 ==> r == documents[..Min(n, |documents|)]
    ensures n < -1 ==> r == documents[..Max(0, |documents| + n)]
  {
    SliceTo(documents, NumDocs(n, |documents|))
  }

  /** The announced count is the number of documents shown whenever
      `n >= -1`; for `n < -1` it is negative while some documents may
      still be shown. */
  lemma AnnouncedCount<T>(documents: seq<T>, n: int)
    ensures n >= -1 ==> NumDocs(n, |documents|) == |SelectedDocuments(documents, n)|
    ensures n < -1 ==> NumDocs(n, |documents|) < 0 <= |SelectedDocuments(documents, n)|
  {
  }
}
