/**
 * The embedding-index engine of ImageService: which files a build encodes and in what
 * order, the build loop that tolerates per-file failure, the ranking of index items
 * against a query embedding, and Get, which builds a missing index before querying.
 *
 * File-system and inference effects are parameters: the directory listing is a
 * sequence of already-normalised paths, the per-file encode step (decode, preprocess,
 * inference, ToVector, NormalizeInPlace) is a function that may fail, the query's
 * embedding is given or absent (its encoding threw), and the index file is a value.
 */
module ImageService {
  import opened Common
  import opened Text
  import opened Vectors
  import Sorting

  const ImagesFolder: string := "imagens_temp"
  const ModelFolder: string := Combine(ImagesFolder, "model")

  /** The extensions a build accepts, compared after lower-casing. */
  const SupportedExtensions: seq<string> := [".jpg", ".jpeg", ".png", ".bmp", ".gif", ".tiff", ".webp"]

  /** The similarity threshold: the exact value of the single-precision literal 0.8f. */
  const Threshold: real := 0.800000011920928955078125

  /** At most this many matches are returned. */
  const TopK: nat := 10

  datatype IndexItem = IndexItem(path: string, embedding: Option<Vector>)

  /** The persisted document; its item list may be null after deserialisation. */
  datatype ImageIndex = ImageIndex(items: Option<seq<IndexItem>>)

  /** The index file: absent, or present with a document that may deserialise to null. */
  datatype IndexFile = Missing | Present(document: Option<ImageIndex>)

  datatype MatchResult = MatchResult(path: string, similarity: real)

  // ------------------------------------------------------ candidate selection

  /** IsUnder: after trimming trailing separators, path starts with folder, ignoring case. */
  predicate IsUnder(path: string, folder: string) {
    StartsWithIgnoreCase(TrimEnd(path, Separator), TrimEnd(folder, Separator))
  }

  predicate HasSupportedExtension(p: string) {
    ToLower(GetExtension(p)) in SupportedExtensions
  }

  /** The two Where clauses of BuildIndex. */
  predicate Eligible(p: string, imagesFolder: string) {
    && HasSupportedExtension(p)
    && !IsUnder(p, ModelFolder)
    && !IsUnder(p, Combine(imagesFolder, "query"))
  }

  function EligibleFiles(files: seq<string>, imagesFolder: string): seq<string>
    decreases |files|
  {
    if files == [] then []
    else (if Eligible(files[0], imagesFolder) then [files[0]] else []) + EligibleFiles(files[1..], imagesFolder)
  }

  /** The files a build encodes: the eligible ones, ordered with OrdinalIgnoreCase. */
  function Candidates(files: seq<string>, imagesFolder: string): seq<string> {
    Sorting.Sort(EligibleFiles(files, imagesFolder), LeqIgnoreCase)
  }

  lemma LeqIgnoreCaseTotalPreorder()
    ensures Sorting.TotalPreorder(LeqIgnoreCase)
  {
    forall a, b ensures LeqIgnoreCase(a, b) || LeqIgnoreCase(b, a) {
      LeqIgnoreCaseIsTotalPreorder(a, b, b);
    }
    forall a, b, c | LeqIgnoreCase(a, b) && LeqIgnoreCase(b, c) ensures LeqIgnoreCase(a, c) {
      LeqIgnoreCaseIsTotalPreorder(a, b, c);
    }
  }

  lemma {:induction false} EligibleFilesMembers(files: seq<string>, imagesFolder: string)
    ensures forall p :: p in EligibleFiles(files, imagesFolder) <==> p in files && Eligible(p, imagesFolder)
    decreases |files|
  {
    if files != [] {
      EligibleFilesMembers(files[1..], imagesFolder);
      assert files == [files[0]] + files[1..];
    }
  }

  /**
   * A file is a candidate exactly when it is listed and eligible; the candidates are a
   * permutation of the eligible files, each no later than the next under the ordinal
   * case-insensitive order, and files that order considers equal keep listing order.
   */
  lemma CandidatesCorrect(files: seq<string>, imagesFolder: string)
    ensures var c := Candidates(files, imagesFolder);
      && (forall p :: p in c <==> p in files && Eligible(p, imagesFolder))
      && multiset(c) == multiset(EligibleFiles(files, imagesFolder))
      && (forall i :: 0 < i < |c| ==> LeqIgnoreCase(c[i - 1], c[i]))
      && (forall k :: Sorting.EquivalentTo(c, k, LeqIgnoreCase)
                   == Sorting.EquivalentTo(EligibleFiles(files, imagesFolder), k, LeqIgnoreCase))
  {
    LeqIgnoreCaseTotalPreorder();
    Sorting.SortCorrect(EligibleFiles(files, imagesFolder), LeqIgnoreCase);
    EligibleFilesMembers(files, imagesFolder);
    var c := Candidates(files, imagesFolder);
    forall p ensures p in c <==> p in EligibleFiles(files, imagesFolder) {
      assert p in c <==> p in multiset(c);
    }
  }

  lemma CandidateIffEligible(files: seq<string>, imagesFolder: string, p: string)
    ensures p in Candidates(files, imagesFolder) <==> p in files && Eligible(p, imagesFolder)
  {
    CandidatesCorrect(files, imagesFolder);
  }

  /** The extension test ignores case: a path and its lower-cased form are accepted alike. */
  lemma SupportedExtensionIgnoresCase(p: string)
    ensures HasSupportedExtension(p) <==> HasSupportedExtension(ToLower(p))
  {
    GetExtensionToLower(p);
    ToLowerProperties(GetExtension(p));
  }

  /**
   * For a folder and a plain name, IsUnder(folder/name, folder/sub) holds exactly when
   * name starts with sub, ignoring case: the test is a raw string prefix, not a
   * comparison of path components.
   */
  lemma IsUnderSibling(dir: string, name: string, sub: string)
    requires |dir| > 0 && dir[|dir| - 1] != Separator
    requires |name| > 0 && HasNoSeparator(name)
    requires |sub| > 0 && HasNoSeparator(sub)
    ensures IsUnder(Combine(dir, name), Combine(dir, sub)) <==> StartsWithIgnoreCase(name, sub)
  {
    var p := dir + [Separator];
    assert Combine(dir, name) == p + name;
    assert Combine(dir, sub) == p + sub;
    assert (p + name)[|p + name| - 1] == name[|name| - 1];
    assert (p + sub)[|p + sub| - 1] == sub[|sub| - 1];
    TrimEndUnchanged(p + name, Separator);
    TrimEndUnchanged(p + sub, Separator);
    StartsWithIgnoreCaseAfterCommonPrefix(p, name, sub);
  }

  /**
   * A listed file directly in the images folder is a candidate exactly when its name has
   * a supported extension and does not begin, in any case, with "model" or "query".
   * So `model_cat.jpg` and `Query1.png` are skipped like the two reserved folders.
   */
  lemma TopLevelFileIsCandidate(files: seq<string>, name: string)
    requires |name| > 0 && HasNoSeparator(name)
    requires Combine(ImagesFolder, name) in files
    ensures Combine(ImagesFolder, name) in Candidates(files, ImagesFolder)
        <==> HasSupportedExtension(name)
             && !StartsWithIgnoreCase(name, "model")
             && !StartsWithIgnoreCase(name, "query")
  {
    var p := Combine(ImagesFolder, name);
    CandidateIffEligible(files, ImagesFolder, p);
    CombineThenSplit(ImagesFolder, name);
    assert HasSupportedExtension(p) == HasSupportedExtension(name);
    IsUnderSibling(ImagesFolder, name, "model");
    IsUnderSibling(ImagesFolder, name, "query");
  }

  // ---------------------------------------------------------------- the build

  /** The items a build collects from the candidates c, in candidate order. */
  function Encoded(c: seq<string>, encode: string -> Option<Vector>): seq<IndexItem>
    decreases |c|
  {
    if c == [] then []
    else
      var last := c[|c| - 1];
      Encoded(c[..|c| - 1], encode) + (match encode(last)
                                       case Some(v) => [IndexItem(last, Some(v))]
                                       case None => [])
  }

  /** How many of the candidates fail to encode. */
  function FailureCount(c: seq<string>, encode: string -> Option<Vector>): nat
    decreases |c|
  {
    if c == [] then 0
    else FailureCount(c[..|c| - 1], encode) + (if encode(c[|c| - 1]).None? then 1 else 0)
  }

  /** Encoding a concatenation encodes each part: a failure never stops the sweep. */
  lemma {:induction false} EncodedAppend(a: seq<string>, b: seq<string>, encode: string -> Option<Vector>)
    ensures Encoded(a + b, encode) == Encoded(a, encode) + Encoded(b, encode)
    decreases |b|
  {
    if b == [] {
      assert a + b == a;
    } else {
      var b' := b[..|b| - 1];
      assert (a + b)[..|a + b| - 1] == a + b';
      assert (a + b)[|a + b| - 1] == b[|b| - 1];
      EncodedAppend(a, b', encode);
    }
  }

  /**
   * Every collected item carries a successful encoding of its own path, which is a
   * candidate; a candidate is collected exactly when it encodes successfully; and the
   * items plus the failures account for every candidate.
   */
  lemma {:induction false} EncodedCorrect(c: seq<string>, encode: string -> Option<Vector>)
    ensures |Encoded(c, encode)| + FailureCount(c, encode) == |c|
    ensures forall k :: 0 <= k < |Encoded(c, encode)| ==>
      Encoded(c, encode)[k].path in c && encode(Encoded(c, encode)[k].path) == Encoded(c, encode)[k].embedding
      && Encoded(c, encode)[k].embedding.Some?
    ensures forall p :: (exists k :: 0 <= k < |Encoded(c, encode)| && Encoded(c, encode)[k].path == p)
                        <==> p in c && encode(p).Some?
    decreases |c|
  {
    if c != [] {
      var init := c[..|c| - 1];
      var last := c[|c| - 1];
      EncodedCorrect(init, encode);
      assert c == init + [last];
      var e := Encoded(c, encode);
      forall p ensures (exists k :: 0 <= k < |e| && e[k].path == p) <==> p in c && encode(p).Some? {
        if p in c && encode(p).Some? {
          if p == last {
            assert e[|e| - 1].path == p;
          } else {
            assert p in init;
            var k :| 0 <= k < |Encoded(init, encode)| && Encoded(init, encode)[k].path == p;
            assert e[k] == Encoded(init, encode)[k];
          }
        }
      }
    }
  }

  /**
   * BuildIndex: selects the candidates, and when there are none writes nothing;
   * otherwise encodes each candidate in order, keeps the successes, counts every
   * candidate processed, and writes the collected items. `written` is the document
   * written to the index file, if any.
   */
  method BuildIndex(files: seq<string>, imagesFolder: string, encode: string -> Option<Vector>)
    returns (written: Option<ImageIndex>, done: nat)
    ensures var c := Candidates(files, imagesFolder);
      if c == [] then written == None && done == 0
      else written == Some(ImageIndex(Some(Encoded(c, encode)))) && done == |c|
  {
    var allImages := Candidates(files, imagesFolder);
    if |allImages| == 0 {
      return None, 0;
    }
    var items: seq<IndexItem> := [];
    done := 0;
    for i := 0 to |allImages|
      invariant items == Encoded(allImages[..i], encode)
      invariant done == i
    {
      var imgPath := allImages[i];
      assert allImages[..i + 1][..i] == allImages[..i];
      match encode(imgPath) {
        case Some(vec) =>
          items := items + [IndexItem(imgPath, Some(vec))];
        case None =>
      }
      done := done + 1;
    }
    assert allImages[..|allImages|] == allImages;
    written := Some(ImageIndex(Some(items)));
  }

  // -------------------------------------------------------------- the ranking

  /** Where(embedding != null), Select(similarity), Where(similarity >= Threshold). */
  function Qualifying(items: seq<IndexItem>, q: Vector): seq<MatchResult>
    decreases |items|
  {
    if items == [] then []
    else
      (match items[0].embedding
       case Some(e) =>
         if Similarity(q, e) >= Threshold then [MatchResult(items[0].path, Similarity(q, e))] else []
       case None => [])
      + Qualifying(items[1..], q)
  }

  /** The OrderByDescending key comparison: a may stand before b. */
  predicate AtLeastAsSimilar(a: MatchResult, b: MatchResult) {
    a.similarity >= b.similarity
  }

  function Take<T>(s: seq<T>, n: nat): seq<T> {
    if |s| <= n then s else s[..n]
  }

  /** The matches QueryNearest lists: the top TopK of the stable descending sort. */
  function Ranked(items: seq<IndexItem>, q: Vector): seq<MatchResult> {
    Take(Sorting.Sort(Qualifying(items, q), AtLeastAsSimilar), TopK)
  }

  /**
   * QueryNearest: absent for a missing file, a null document, null items or no items;
   * otherwise the query is encoded (which may throw) and the ranked matches are
   * returned, or absent when none qualifies.
   */
  function QueryNearest(file: IndexFile, query: Option<Vector>): Outcome<Option<seq<MatchResult>>> {
    match file
    case Missing => Returned(None)
    case Present(document) =>
      if document.None? || document.value.items.None? || |document.value.items.value| == 0 then
        Returned(None)
      else if query.None? then
        Threw
      else
        var matches := Ranked(document.value.items.value, query.value);
        Returned(if |matches| > 0 then Some(matches) else None)
  }

  lemma {:induction false} QualifyingMembers(items: seq<IndexItem>, q: Vector)
    ensures forall m :: m in Qualifying(items, q) <==>
      m.similarity >= Threshold &&
      exists k :: 0 <= k < |items| && items[k].embedding.Some?
               && m == MatchResult(items[k].path, Similarity(q, items[k].embedding.value))
    decreases |items|
  {
    if items != [] {
      QualifyingMembers(items[1..], q);
      forall m ensures m in Qualifying(items, q) <==>
        m.similarity >= Threshold &&
        exists k :: 0 <= k < |items| && items[k].embedding.Some?
                 && m == MatchResult(items[k].path, Similarity(q, items[k].embedding.value))
      {
        if m in Qualifying(items[1..], q) {
          var k :| 0 <= k < |items[1..]| && items[1..][k].embedding.Some?
                   && m == MatchResult(items[1..][k].path, Similarity(q, items[1..][k].embedding.value));
          assert items[k + 1] == items[1..][k];
        }
        if m.similarity >= Threshold {
          if k :| 0 <= k < |items| && items[k].embedding.Some?
                  && m == MatchResult(items[k].path, Similarity(q, items[k].embedding.value)) {
            if k > 0 {
              assert items[1..][k - 1] == items[k];
            }
          }
        }
      }
    }
  }

  lemma AtLeastAsSimilarTotalPreorder()
    ensures Sorting.TotalPreorder(AtLeastAsSimilar)
  {
  }

  /**
   * The ranked list has exactly min(TopK, number qualifying) matches and is the prefix
   * of the descending sort of every qualifying match; that sort is a stable permutation
   * of the qualifying matches, so equal similarities keep index order.
   */
  lemma RankedIsTopOfStableSort(items: seq<IndexItem>, q: Vector)
    ensures var all := Sorting.Sort(Qualifying(items, q), AtLeastAsSimilar);
      && |Ranked(items, q)| == Min(TopK, |Qualifying(items, q)|)
      && Ranked(items, q) == all[..|Ranked(items, q)|]
      && multiset(all) == multiset(Qualifying(items, q))
      && (forall k :: Sorting.EquivalentTo(all, k, AtLeastAsSimilar)
                   == Sorting.EquivalentTo(Qualifying(items, q), k, AtLeastAsSimilar))
  {
    AtLeastAsSimilarTotalPreorder();
    Sorting.SortCorrect(Qualifying(items, q), AtLeastAsSimilar);
  }

  /** Similarities never increase along the ranked list. */
  lemma RankedDescending(items: seq<IndexItem>, q: Vector)
    ensures var r := Ranked(items, q);
      forall i, j :: 0 <= i <= j < |r| ==> r[i].similarity >= r[j].similarity
  {
    var all := Sorting.Sort(Qualifying(items, q), AtLeastAsSimilar);
    var r := Ranked(items, q);
    RankedIsTopOfStableSort(items, q);
    AtLeastAsSimilarTotalPreorder();
    Sorting.SortCorrect(Qualifying(items, q), AtLeastAsSimilar);
    forall i, j | 0 <= i <= j < |r| ensures r[i].similarity >= r[j].similarity {
      Sorting.SortedPairwise(all, AtLeastAsSimilar, i, j);
      assert r[i] == all[i] && r[j] == all[j];
    }
  }

  /**
   * Every ranked match comes from an index item that has an embedding, carries that
   * item's path and similarity, and reaches the threshold.
   */
  lemma RankedSound(items: seq<IndexItem>, q: Vector)
    ensures forall m :: m in Ranked(items, q) ==>
      m.similarity >= Threshold &&
      exists k :: 0 <= k < |items| && items[k].embedding.Some?
               && m == MatchResult(items[k].path, Similarity(q, items[k].embedding.value))
  {
    var all := Sorting.Sort(Qualifying(items, q), AtLeastAsSimilar);
    RankedIsTopOfStableSort(items, q);
    QualifyingMembers(items, q);
    forall m | m in Ranked(items, q) ensures m in Qualifying(items, q) {
      assert m in all;
      assert m in multiset(all);
    }
  }

  lemma AbsentFromPrefix<T>(s: seq<T>, n: nat, x: T)
    requires n <= |s|
    ensures x !in s[..n] ==> forall j :: 0 <= j < n ==> s[j] != x
  {
    assert forall j :: 0 <= j < n ==> s[..n][j] == s[j];
  }

  /**
   * Top-K: no qualifying match left out is more similar than any listed one, and when
   * at most TopK qualify, every one of them is listed.
   */
  lemma RankedIsTopK(items: seq<IndexItem>, q: Vector)
    ensures var r := Ranked(items, q);
      forall m :: m in Qualifying(items, q) && m !in r ==>
        forall i :: 0 <= i < |r| ==> r[i].similarity >= m.similarity
    ensures |Qualifying(items, q)| <= TopK ==>
      multiset(Ranked(items, q)) == multiset(Qualifying(items, q))
  {
    var qs := Qualifying(items, q);
    var all := Sorting.Sort(qs, AtLeastAsSimilar);
    var r := Ranked(items, q);
    RankedIsTopOfStableSort(items, q);
    AtLeastAsSimilarTotalPreorder();
    Sorting.SortCorrect(qs, AtLeastAsSimilar);
    forall m | m in qs && m !in r ensures forall i :: 0 <= i < |r| ==> r[i].similarity >= m.similarity {
      assert m in multiset(all);
      var j :| 0 <= j < |all| && all[j] == m;
      AbsentFromPrefix(all, |r|, m);
      forall i | 0 <= i < |r| ensures r[i].similarity >= m.similarity {
        Sorting.SortedPairwise(all, AtLeastAsSimilar, i, j);
      }
    }
    if |qs| <= TopK {
      assert r == all;
    }
  }

  /** Whether the index file offers no item at all (missing, null, or empty). */
  predicate NoItems(file: IndexFile) {
    || file.Missing?
    || file.document.None?
    || file.document.value.items.None?
    || |file.document.value.items.value| == 0
  }

  /**
   * QueryNearest is absent exactly when the file offers no item or the query is encoded
   * and nothing qualifies; it throws exactly when there are items and the query cannot
   * be encoded; otherwise it is the non-empty ranked list, so it never yields an empty list.
   */
  lemma QueryNearestCorrect(file: IndexFile, query: Option<Vector>)
    ensures QueryNearest(file, query) == Returned(None) <==>
      NoItems(file) || (query.Some? && Qualifying(file.document.value.items.value, query.value) == [])
    ensures QueryNearest(file, query) == Threw <==> !NoItems(file) && query.None?
    ensures QueryNearest(file, query).Returned? && QueryNearest(file, query).value.Some? ==>
      && !NoItems(file) && query.Some?
      && QueryNearest(file, query).value.value == Ranked(file.document.value.items.value, query.value)
      && 0 < |QueryNearest(file, query).value.value| <= TopK
  {
    if !NoItems(file) && query.Some? {
      RankedIsTopOfStableSort(file.document.value.items.value, query.value);
    }
  }

  // ---------------------------------------------------------------------- Get

  /** The index file after Get's build step: rebuilt only when missing and something qualifies. */
  function AfterBuild(file: IndexFile, files: seq<string>, encode: string -> Option<Vector>): IndexFile {
    var c := Candidates(files, ImagesFolder);
    if file.Missing? && c != [] then Present(Some(ImageIndex(Some(Encoded(c, encode))))) else file
  }

  /**
   * Get: without the model file, absent; with it, builds the index when the file is
   * missing, then queries; an exception from the query becomes absent as well. Every
   * item of a freshly built index is an eligible listed file with its successful encoding.
   */
  method Get(modelExists: bool, file: IndexFile, files: seq<string>,
             encode: string -> Option<Vector>, query: Option<Vector>)
    returns (result: Option<seq<MatchResult>>, fileAfter: IndexFile)
    ensures !modelExists ==> result == None && fileAfter == file
    ensures modelExists ==> fileAfter == AfterBuild(file, files, encode)
    ensures modelExists ==> result == match QueryNearest(fileAfter, query)
                                      case Returned(r) => r
                                      case Threw => None
    ensures result.Some? ==> 0 < |result.value| <= TopK
    ensures file.Missing? && fileAfter.Present? ==>
      var items := fileAfter.document.value.items.value;
      forall k :: 0 <= k < |items| ==>
        items[k].path in files && Eligible(items[k].path, ImagesFolder)
        && items[k].embedding == encode(items[k].path) && items[k].embedding.Some?
  {
    fileAfter := file;
    if !modelExists {
      return None, file;
    }
    if file.Missing? {
      var written, done := BuildIndex(files, ImagesFolder, encode);
      if written.Some? {
        fileAfter := Present(written);
      }
      var c := Candidates(files, ImagesFolder);
      CandidatesCorrect(files, ImagesFolder);
      EncodedCorrect(c, encode);
    }
    QueryNearestCorrect(fileAfter, query);
    match QueryNearest(fileAfter, query) {
      case Returned(best) =>
        if best.None? {
          return None, fileAfter;
        }
        result := best;
      case Threw =>
        result := None;
    }
  }
}
