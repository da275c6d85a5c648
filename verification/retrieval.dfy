/** The document store of the chat server: documents cut into fixed-size
    chunks when they are loaded, and the top chunks for a question picked by
    score. A chunk's score is an abstract number standing for the cosine
    similarity between its embedding and the question's embedding. */
module Retrieval {
  import opened Text

  /** One stored chunk (its embedding lives outside the model). */
  datatype Chunk = Chunk(id: string, text: string, source: string)

  /** A document as read from the documents folder: file name and raw text. */
  datatype Document = Document(name: string, text: string)

  /** Documents are cut every 500 characters. */
  const ChunkSize: nat := 500

  /** The number of chunks retrieval keeps. */
  const TopK: nat := 3

  /** Only these files are ingested. */
  const DocxSuffix := ".docx"

  function Min(a: int, b: int): int {
    if a <= b then a else b
  }

  /** The chunk that starts at `offset`: `text.slice(offset, offset + 500)`,
      named `file-offset`. */
  function ChunkAt(file: string, text: string, offset: nat): Chunk
    requires offset <= |text|
  {
    Chunk(file + "-" + Decimal(offset), text[offset..Min(offset + ChunkSize, |text|)], file)
  }

  /** The chunks from `offset` on, one every `ChunkSize` characters: the
      loop `for (let i = offset; i < text.length; i += 500)`. */
  function ChunksFrom(file: string, text: string, offset: nat): seq<Chunk>
    decreases |text| - offset
  {
    if offset >= |text| then []
    else [ChunkAt(file, text, offset)] + ChunksFrom(file, text, offset + ChunkSize)
  }

  /** The loop produces one chunk per started block of `ChunkSize`, the
      `k`-th one at `offset + k * ChunkSize`. */
  lemma {:induction false} ChunksFromShape(file: string, text: string, offset: nat)
    ensures |ChunksFrom(file, text, offset)| ==
      if offset >= |text| then 0 else (|text| - offset + ChunkSize - 1) / ChunkSize
    ensures forall k :: 0 <= k < |ChunksFrom(file, text, offset)| ==>
      offset + k * ChunkSize < |text|
      && ChunksFrom(file, text, offset)[k] == ChunkAt(file, text, offset + k * ChunkSize)
    decreases |text| - offset
  {
    if offset < |text| {
      ChunksFromShape(file, text, offset + ChunkSize);
      var rest := ChunksFrom(file, text, offset + ChunkSize);
      var r := ChunksFrom(file, text, offset);
      assert r == [ChunkAt(file, text, offset)] + rest;
      forall k | 1 <= k < |r|
        ensures offset + k * ChunkSize < |text| && r[k] == ChunkAt(file, text, offset + k * ChunkSize)
      {
        assert r[k] == rest[k - 1];
        assert offset + ChunkSize + (k - 1) * ChunkSize == offset + k * ChunkSize;
      }
    }
  }

  /** The chunks of one document, at offsets 0, 500, 1000, ... */
  function ChunkText(file: string, text: string): (r: seq<Chunk>)
    ensures |r| == (|text| + ChunkSize - 1) / ChunkSize
    ensures forall k :: 0 <= k < |r| ==>
      && k * ChunkSize < |text|
      && r[k].id == file + "-" + Decimal(k * ChunkSize)
      && r[k].source == file
      && r[k].text == text[k * ChunkSize..Min(k * ChunkSize + ChunkSize, |text|)]
    ensures forall k :: 0 <= k < |r| - 1 ==> |r[k].text| == ChunkSize
    ensures forall k :: 0 <= k < |r| ==> 0 < |r[k].text| <= ChunkSize
  {
    ChunksFromShape(file, text, 0);
    ChunksFrom(file, text, 0)
  }

  /** The texts of a sequence of chunks. */
  function Texts(cs: seq<Chunk>): (r: seq<string>)
    ensures |r| == |cs| && forall k :: 0 <= k < |cs| ==> r[k] == cs[k].text
  {
    seq(|cs|, k requires 0 <= k < |cs| => cs[k].text)
  }

  /** The chunks from `offset` on rebuild the text from `offset` on. */
  lemma {:induction false} ChunksFromConcat(file: string, text: string, offset: nat)
    requires offset <= |text|
    ensures Concat(Texts(ChunksFrom(file, text, offset))) == text[offset..]
    decreases |text| - offset
  {
    if offset < |text| {
      var c := ChunkAt(file, text, offset);
      var rest := ChunksFrom(file, text, offset + ChunkSize);
      assert ChunksFrom(file, text, offset) == [c] + rest;
      TextsCons(c, rest);
      ConcatCons(c.text, Texts(rest));
      if offset + ChunkSize <= |text| {
        ChunksFromConcat(file, text, offset + ChunkSize);
        assert c.text == text[offset..offset + ChunkSize];
        assert text[offset..] == text[offset..offset + ChunkSize] + text[offset + ChunkSize..];
      } else {
        assert rest == [];
        assert Texts(rest) == [];
        assert c.text == text[offset..];
      }
    }
  }

  lemma TextsCons(c: Chunk, cs: seq<Chunk>)
    ensures Texts([c] + cs) == [c.text] + Texts(cs)
  {
  }

  /** Cutting loses nothing: the chunk texts concatenate to the document. */
  lemma ChunkTextConcat(file: string, text: string)
    ensures Concat(Texts(ChunkText(file, text))) == text
  {
    ChunksFromConcat(file, text, 0);
  }

  /** Chunk ids within one document are pairwise distinct. */
  lemma ChunkIdsDistinct(file: string, text: string, j: nat, k: nat)
    requires j < k < |ChunkText(file, text)|
    ensures ChunkText(file, text)[j].id != ChunkText(file, text)[k].id
  {
    var r := ChunkText(file, text);
    var p := file + "-";
    if r[j].id == r[k].id {
      assert r[j].id == p + Decimal(j * ChunkSize);
      assert r[k].id == p + Decimal(k * ChunkSize);
      assert Decimal(j * ChunkSize) == r[j].id[|p|..];
      assert Decimal(k * ChunkSize) == r[k].id[|p|..];
      DecimalInjective(j * ChunkSize, k * ChunkSize);
    }
  }

  /** The store built at start-up: the chunks of every `.docx` document, in
      folder order. */
  function Ingest(docs: seq<Document>): (r: seq<Chunk>)
    ensures |docs| == 0 ==> r == []
    ensures forall k :: 0 <= k < |r| ==> EndsWith(r[k].source, DocxSuffix)
    ensures forall k :: 0 <= k < |r| ==> 0 < |r[k].text| <= ChunkSize
    ensures forall k :: 0 <= k < |r| ==> exists d :: d in docs && d.name == r[k].source
  {
    if |docs| == 0 then []
    else
      var init := Ingest(Init(docs));
      var d := Last(docs);
      var own := if EndsWith(d.name, DocxSuffix) then ChunkText(d.name, d.text) else [];
      var r := init + own;
      assert forall k :: 0 <= k < |init| ==> r[k] == init[k];
      assert forall k :: |init| <= k < |r| ==> r[k] == own[k - |init|];
      assert forall e :: e in Init(docs) ==> e in docs;
      r
  }

  /** A `.docx` document contributes all its chunks, after those of the
      documents before it. */
  lemma IngestAdds(docs: seq<Document>, d: Document)
    requires EndsWith(d.name, DocxSuffix)
    ensures Ingest(docs + [d]) == Ingest(docs) + ChunkText(d.name, d.text)
  {
    assert Init(docs + [d]) == docs;
    assert Last(docs + [d]) == d;
  }

  /** A document that is not a `.docx` contributes nothing. */
  lemma IngestSkips(docs: seq<Document>, d: Document)
    requires !EndsWith(d.name, DocxSuffix)
    ensures Ingest(docs + [d]) == Ingest(docs)
  {
    assert Init(docs + [d]) == docs;
  }

  // ----- top-K selection -----

  /** Index `i` comes before index `j` in the stable descending sort of
      `scores`: a higher score first, and on equal scores the earlier index. */
  predicate Before(scores: seq<real>, i: nat, j: nat) {
    i < |scores| && j < |scores| && (scores[i] > scores[j] || (scores[i] == scores[j] && i < j))
  }

  predicate InRange(scores: seq<real>, xs: seq<nat>) {
    forall p :: 0 <= p < |xs| ==> xs[p] < |scores|
  }

  predicate Distinct(xs: seq<nat>) {
    forall p, q :: 0 <= p < q < |xs| ==> xs[p] != xs[q]
  }

  /** Every index comes before every later one. */
  predicate Sorted(scores: seq<real>, xs: seq<nat>) {
    forall p, q :: 0 <= p < q < |xs| ==> Before(scores, xs[p], xs[q])
  }

  /** `Before` is total on distinct indices in range. */
  lemma BeforeTotal(scores: seq<real>, i: nat, j: nat)
    requires i < |scores| && j < |scores| && i != j
    ensures Before(scores, i, j) || Before(scores, j, i)
  {
  }

  /** Insertion of `x` into a sorted sequence of indices. */
  function Insert(scores: seq<real>, x: nat, xs: seq<nat>): (r: seq<nat>)
    requires x < |scores| && InRange(scores, xs) && Sorted(scores, xs) && x !in xs
    ensures InRange(scores, r) && Sorted(scores, r)
    ensures multiset(r) == multiset(xs) + multiset{x}
  {
    if |xs| == 0 then [x]
    else if Before(scores, x, xs[0]) then
      forall q | 0 <= q < |xs| ensures Before(scores, x, xs[q]) {
        if q > 0 { assert Before(scores, xs[0], xs[q]); }
      }
      PrependSorted(scores, x, xs);
      assert xs == [xs[0]] + xs[1..];
      [x] + xs
    else
      BeforeTotal(scores, x, xs[0]);
      SortedTail(scores, xs);
      assert xs == [xs[0]] + xs[1..];
      var rest := Insert(scores, x, xs[1..]);
      HeadBeforeInserted(scores, xs, x, rest);
      PrependSorted(scores, xs[0], rest);
      [xs[0]] + rest
  }

  /** The tail of a sorted sequence is sorted and comes after its head. */
  lemma SortedTail(scores: seq<real>, xs: seq<nat>)
    requires |xs| > 0 && InRange(scores, xs) && Sorted(scores, xs)
    ensures InRange(scores, xs[1..]) && Sorted(scores, xs[1..])
    ensures forall q :: 0 <= q < |xs| - 1 ==> Before(scores, xs[0], xs[1..][q])
  {
    assert forall q :: 0 <= q < |xs| - 1 ==> xs[1..][q] == xs[q + 1];
  }

  /** An index before every element of a sorted sequence can be put in front. */
  lemma PrependSorted(scores: seq<real>, y: nat, ys: seq<nat>)
    requires InRange(scores, ys) && Sorted(scores, ys) && y < |scores|
    requires forall q :: 0 <= q < |ys| ==> Before(scores, y, ys[q])
    ensures InRange(scores, [y] + ys) && Sorted(scores, [y] + ys)
  {
    var r := [y] + ys;
    assert forall p :: 1 <= p < |r| ==> r[p] == ys[p - 1];
  }

  /** The head of a sorted sequence stays before everything inserted after it. */
  lemma HeadBeforeInserted(scores: seq<real>, xs: seq<nat>, x: nat, rest: seq<nat>)
    requires |xs| > 0 && InRange(scores, xs) && Sorted(scores, xs)
    requires Before(scores, xs[0], x)
    requires multiset(rest) == multiset(xs[1..]) + multiset{x}
    ensures forall q :: 0 <= q < |rest| ==> Before(scores, xs[0], rest[q])
  {
    forall q | 0 <= q < |rest| ensures Before(scores, xs[0], rest[q]) {
      assert rest[q] in multiset(rest);
      if rest[q] != x {
        assert rest[q] in multiset(xs[1..]);
        var p :| 0 <= p < |xs[1..]| && xs[1..][p] == rest[q];
        assert xs[p + 1] == rest[q];
      }
    }
  }

  /** Stable descending insertion sort of distinct indices. */
  function Sort(scores: seq<real>, xs: seq<nat>): (r: seq<nat>)
    requires InRange(scores, xs) && Distinct(xs)
    ensures InRange(scores, r) && Sorted(scores, r)
    ensures multiset(r) == multiset(xs)
  {
    if |xs| == 0 then []
    else
      DistinctTail(scores, xs);
      var rest := Sort(scores, xs[1..]);
      assert xs[0] !in multiset(rest);
      Insert(scores, xs[0], rest)
  }

  /** The tail of distinct indices in range is so too, and lacks the head. */
  lemma DistinctTail(scores: seq<real>, xs: seq<nat>)
    requires |xs| > 0 && InRange(scores, xs) && Distinct(xs)
    ensures InRange(scores, xs[1..]) && Distinct(xs[1..])
    ensures xs[0] !in multiset(xs[1..])
    ensures multiset(xs) == multiset(xs[1..]) + multiset{xs[0]}
  {
    assert forall q :: 0 <= q < |xs| - 1 ==> xs[1..][q] == xs[q + 1];
    assert xs == [xs[0]] + xs[1..];
  }

  /** The indices of `scores` in order. */
  function Range(n: nat): (r: seq<nat>)
    ensures |r| == n && forall i :: 0 <= i < n ==> r[i] == i
  {
    seq(n, i requires 0 <= i < n => i)
  }

  /** `scored.sort((a, b) => b.score - a.score).slice(0, 3)`, as indices into
      `scores`: at most three, best first, ties kept in store order, and no
      index left out that should have been picked. */
  function TopIndices(scores: seq<real>): (r: seq<nat>)
    ensures |r| == Min(TopK, |scores|)
    ensures InRange(scores, r) && Distinct(r)
    ensures forall p, q :: 0 <= p < q < |r| ==> scores[r[p]] >= scores[r[q]]
    ensures forall p, q :: 0 <= p < q < |r| && scores[r[p]] == scores[r[q]] ==> r[p] < r[q]
    ensures forall i, p :: 0 <= i < |scores| && i !in r && 0 <= p < |r| ==>
      scores[r[p]] >= scores[i] && (scores[r[p]] == scores[i] ==> r[p] < i)
  {
    var all := Sort(scores, Range(|scores|));
    assert |all| == |multiset(all)| == |scores|;
    var r := all[..Min(TopK, |scores|)];
    forall i, p | 0 <= i < |scores| && i !in r && 0 <= p < |r|
      ensures Before(scores, r[p], i)
    {
      assert Range(|scores|)[i] == i;
      assert i in multiset(all);
      var q :| 0 <= q < |all| && all[q] == i;
      assert q >= |r|;
    }
    r
  }

  /** The retrieved context: the texts of the top chunks joined with line feeds. */
  function Context(store: seq<Chunk>, score: Chunk -> real): (r: string)
    ensures |store| == 0 ==> r == ""
    ensures |store| > 0 ==> exists b :: Best(store, score, b) && StartsWith(r, store[b].text)
  {
    var top := TopIndices(Scores(store, score));
    var texts := seq(|top|, k requires 0 <= k < |top| => store[top[k]].text);
    if |store| == 0 then Join(texts, "\n")
    else
      TopIsBest(store, score);
      Join(texts, "\n")
  }

  /** The first of the top indices is the best chunk. */
  lemma TopIsBest(store: seq<Chunk>, score: Chunk -> real)
    requires |store| > 0
    ensures Best(store, score, TopIndices(Scores(store, score))[0])
  {
    var scores := Scores(store, score);
    var top := TopIndices(scores);
    forall i | 0 <= i < |store| && i != top[0] ensures Before(scores, top[0], i) {
      if i in top {
        var q :| 0 <= q < |top| && top[q] == i;
        assert q > 0;
      }
    }
  }

  /** Chunk `b` has the highest score, and is the first of the store with it. */
  predicate Best(store: seq<Chunk>, score: Chunk -> real, b: int) {
    && 0 <= b < |store|
    && forall i :: 0 <= i < |store| ==>
         score(store[b]) >= score(store[i]) && (score(store[i]) == score(store[b]) ==> b <= i)
  }

  /** Each chunk's score, in store order. */
  function Scores(store: seq<Chunk>, score: Chunk -> real): (r: seq<real>)
    ensures |r| == |store| && forall i :: 0 <= i < |store| ==> r[i] == score(store[i])
  {
    seq(|store|, i requires 0 <= i < |store| => score(store[i]))
  }
}
