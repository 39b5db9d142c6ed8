# image-search, modelled in Dafny

A model of the embedding-index engine behind the `POST /Image` endpoint of image-search, a
reverse image search service. Each picture is turned into a fixed-length embedding by a
CLIP image encoder. Those embeddings are stored in a JSON index, and a query picture is
answered with the best matches above a similarity threshold.

The model covers the following.

- **ImageService.BuildIndex**: chooses the candidate files. It keeps the supported
  extensions, skips whatever `IsUnder` places in the model or query folders, and orders
  the rest ordinally ignoring case with a stable sort. It then encodes each candidate in
  order, drops the ones that fail and writes the index. When there is no candidate it
  writes nothing.
- **ImageService.QueryNearest**: ranks the stored embeddings. It keeps the ones with an
  embedding, computes each similarity, keeps those at or above `0.8f`, sorts them
  descending with a stable sort and takes the first ten. It is absent for a missing or
  empty index and when nothing qualifies.
- **ImageService.Get**: the surrounding `Get`. It returns absent without the model file,
  builds the index when the index file is missing, and turns any exception into absent.
- **The helpers that produce and compare embeddings**: the centre crop offsets of
  `ResizeAndCenterCrop`, the NCHW tensor fill of `Preprocess`, and `ToVector`,
  `NormalizeInPlace`, `Cosine` and `IsUnder`.
- **ImageController.Post**: checks the upload, skips matches whose file is gone, maps
  extensions to MIME types, and answers BadRequest, NotFound or Ok.

Modules:

| file | module | content |
|---|---|---|
| Common.dfy | Common | `Option`, `Outcome` (a value or a thrown exception), `byte` |
| Text.dfy | Text | ASCII case mapping, ordinal case-insensitive order, `TrimEnd`, `Path.Combine`, `Path.GetExtension`, `Path.GetFileName` |
| Sorting.dfy | Sorting | the stable sort that LINQ's `OrderBy`/`OrderByDescending` perform, proved sorted, a permutation and stable |
| Vectors.dfy | Vectors | `ToVector`, `NormalizeInPlace` (on an `array<real>`), `Cosine` |
| Preprocessing.dfy | Preprocessing | crop rectangle, crop, `Preprocess` (fills a fresh `array<real>`) |
| ImageService.dfy | ImageService | candidate selection, `BuildIndex`, ranking, `QueryNearest`, `Get` |
| ImageController.dfy | ImageController | MIME switch, the match loop, `Post` and a corrected `Post` |

Some things outside the code are parameters of the model:
- The file system: the listing of the images folder, whether files exist, and their bytes.
- The encoder: `encode(path)` is the normalised embedding of a file, or `None` when
  decoding, inference or `ToVector` throws for it.
- The query's embedding: `None` when the query cannot be encoded.
- The square root.

Floating-point numbers are modelled as exact reals. The threshold is the exact value of the
single-precision literal `0.8f`, which is 0.800000011920928955078125.

Three points of the code that the model follows closely:
- The threshold is the single-precision literal `0.8f` (Service/ImageService.cs:147), whose
  exact value is slightly above 0.8.
- The comment at Service/ImageService.cs:67 says the model and query folders are excluded.
  The listing is top-level only (Service/ImageService.cs:72), so no file inside those folders
  is ever listed. `IsUnder` is a raw case-insensitive string prefix test, so what the filter
  really drops are top-level files whose names begin with `model` or `query`
  (`ImageService.TopLevelFileIsCandidate`).
- `OrderByDescending` is a stable sort, so equal similarities keep index order
  (`ImageService.RankedIsTopOfStableSort`).

## Model

| member | source | states |
|---|---|---|
| Text.ToLowerProperties | Controllers/ImageController.cs:39 | lower-casing is idempotent, keeps every '.' and '/' in place, and is invisible to the ordinal case-insensitive comparison |
| Text.GetExtensionToLower | Service/ImageService.cs:73 | the extension of the lower-cased path is the lower-cased extension |
| Text.LeqIgnoreCaseIsTotalPreorder | Service/ImageService.cs:75 | the OrdinalIgnoreCase order is total and transitive |
| Text.CombineThenSplit | Service/ImageService.cs:15 | for a folder and a plain name, the file name of the combined path is the name and its extension is the name's extension |
| Sorting.SortCorrect | Service/ImageService.cs:75 | the sort is a permutation in which each element may stand before the next, and equivalent elements keep their input order (stability) |
| Sorting.SortedPairwise | Service/ImageService.cs:148 | in a sorted sequence every earlier element may stand before every later one |
| ImageService.EligibleFilesMembers | Service/ImageService.cs:73-74 | a path passes the two Where clauses exactly when it is listed, has a supported extension and is under neither reserved folder |
| ImageService.LeqIgnoreCaseTotalPreorder | Service/ImageService.cs:75 | the comparer handed to OrderBy is a total preorder |
| ImageService.CandidatesCorrect | Service/ImageService.cs:71-76 | a file is a candidate iff it is listed and eligible; the candidates are a permutation of the eligible files, in non-decreasing case-insensitive order, with ties kept in listing order |
| ImageService.SupportedExtensionIgnoresCase | Service/ImageService.cs:73 | a path and its lower-cased form pass the extension test alike |
| ImageService.IsUnderSibling | Service/ImageService.cs:244-249 | for a folder's file and subfolder, neither of which ends in a separator so trimming leaves both unchanged, IsUnder holds iff the file name starts with the subfolder name ignoring case |
| ImageService.TopLevelFileIsCandidate | Service/ImageService.cs:72-74 | a top-level file is a candidate iff its extension is supported and its name starts with neither "model" nor "query" in any case |
| ImageService.EncodedAppend | Service/ImageService.cs:90-108 | the items collected from a concatenation are those of each part in turn, so a failed encode never stops or reorders the sweep |
| ImageService.EncodedCorrect | Service/ImageService.cs:90-112 | items plus failures number the candidates; each item is a candidate with its own successful encoding; a candidate is indexed iff it encodes |
| ImageService.BuildIndex | Service/ImageService.cs:68-120 | with no candidate nothing is written and nothing counted; otherwise the written index holds the encoded candidates in candidate order and every candidate is counted |
| ImageService.QualifyingMembers | Service/ImageService.cs:140-147 | a match qualifies iff it comes from an item with an embedding, carries its path and similarity, and reaches the threshold |
| ImageService.AtLeastAsSimilarTotalPreorder | Service/ImageService.cs:148 | the descending similarity key comparison is a total preorder |
| ImageService.RankedIsTopOfStableSort | Service/ImageService.cs:140-150 | the ranking has min(10, qualifying) entries and is the prefix of a stable descending permutation of the qualifying matches |
| ImageService.RankedDescending | Service/ImageService.cs:148 | similarities never increase along the ranking |
| ImageService.RankedSound | Service/ImageService.cs:140-147 | every ranked match is a qualifying match of a stored item with an embedding |
| ImageService.RankedIsTopK | Service/ImageService.cs:148-149 | no qualifying match left out is more similar than a listed one; with at most 10 qualifying, all are listed |
| ImageService.QueryNearestCorrect | Service/ImageService.cs:123-153 | absent iff the index has no item or nothing qualifies; throws iff there are items and the query cannot be encoded; otherwise the ranking, of size 1 to 10 |
| ImageService.Get | Service/ImageService.cs:30-65 | without the model, absent and nothing built; else the index is built only when missing, then queried, with exceptions made absent; a present result has 1 to 10 matches; freshly built items are eligible listed files with their encodings |
| Preprocessing.CenterCropRectangleCentred | Service/ImageService.cs:210-213 | the crop is w x h; when the picture is large enough it lies inside and is centred to within one pixel; otherwise the offset truncates toward zero |
| Preprocessing.ResizeAndCenterCropCorrect | Service/ImageService.cs:201-215 | the crop succeeds iff the resized picture is at least w x h, and then yields the w x h window at the centring offsets |
| Preprocessing.Preprocess | Service/ImageService.cs:168-198 | throws iff the resized picture is narrower or lower than 224; otherwise a fresh tensor of 3 x 224 x 224 values whose element [0, c, y, x] is channel c of cropped pixel (x, y) scaled to [0, 1] and standardised |
| Vectors.AggregateIsProduct | Service/ImageService.cs:221 | the left fold of the dimensions from 1 is their product |
| Vectors.ToVectorOfDenseTensor | Service/ImageService.cs:217-225 | for a dense tensor ToVector returns its buffer, of length the product of the dimensions, hence D for shapes [1, D] and [D] |
| Vectors.NormalizeInPlace | Service/ImageService.cs:227-234 | the array becomes its old contents divided by the square root of their sum of squares, or stays unchanged when that root is not positive |
| Vectors.SumOfSquaresScaled | Service/ImageService.cs:233 | dividing every element by n divides the sum of squares by n squared |
| Vectors.NormalizedProperties | Service/ImageService.cs:227-234 | normalisation keeps the length and zero elements, keeps the zero vector zero, and with an exact root yields a unit vector |
| Vectors.Cosine | Service/ImageService.cs:236-242 | Cosine returns the dot product over the shorter length |
| Vectors.DotSymmetric | Service/ImageService.cs:240 | the dot product of two prefixes is symmetric |
| Vectors.DotOfPrefixes | Service/ImageService.cs:238-240 | the dot product of n elements depends only on the first n elements of each vector |
| Vectors.DotWithZero | Service/ImageService.cs:240 | the dot product with a zero vector is zero |
| Vectors.DotWithItself | Service/ImageService.cs:240 | the dot product of a vector with itself is the sum of squares of that prefix |
| Vectors.SimilarityProperties | Service/ImageService.cs:236-242 | the similarity is symmetric, reads a longer vector as its prefix, is 0 against the zero vector, and is a vector's squared length against itself |
| ImageController.MimeTypeOfCorrect | Controllers/ImageController.cs:39-49 | the switch gives "image/" plus the extension (jpeg for .jpg) exactly for the seven extensions the index accepts, octet-stream for every other, whatever the path's case |
| ImageController.CollectImages | Controllers/ImageController.cs:28-58 | the loop's list is the listing of the servable matches in match order |
| ImageController.CollectedAppend | Controllers/ImageController.cs:30-58 | listing a concatenation lists each part in turn |
| ImageController.CollectedCorrect | Controllers/ImageController.cs:30-58 | at most one entry per match; each entry is the name, MIME type and bytes of a servable match; each servable match is listed; empty iff none is servable |
| ImageController.Post | Controllers/ImageController.cs:20-64 | no or empty upload gives BadRequest; a null search result ends in an unhandled exception; otherwise NotFound when nothing is servable, else Ok with the listing |
| ImageController.NoQualifyingMatchYieldsNull | Service/ImageService.cs:147-152 | an index with one item orthogonal to the query makes QueryNearest return absent; by the ensures of ImageService.Get, Get then returns null |
| ImageController.PostCorrected | Controllers/ImageController.cs:20-64 | as Post, but a null search result gives NotFound; never an unhandled exception, and Ok never carries an empty list |

## Left out

- Image decoding, resizing and the rounding of the resized sizes are done by ImageSharp and
  are not modelled. `Preprocessing.Preprocess` starts from the resized picture; the scale
  computation and `Math.Round` at Service/ImageService.cs:204-208 are not modelled.
- ONNX inference is the `encode` parameter and the query's embedding. The output-name
  fallback, the tensor cast and `InferenceSession` construction failures are not modelled.
  An exception while creating the session during a build escapes `BuildIndex`; the model
  does not capture this.
- Floating-point rounding is not modelled: single- and double-precision arithmetic are
  exact reals. The mean and standard deviation constants are their decimal values, not the
  nearest floats.
- Vectors.NormalizeInPlace: the square root is a parameter. The unit-length result is
  proved only when that root is exact (`Vectors.NormalizedProperties`).
- Vectors.SimilarityProperties: the bound of the similarity to [-1, 1] for unit vectors
  (Cauchy-Schwarz) is not proved.
- Vectors.ToVector: `Aggregate` uses 32-bit int arithmetic, which can overflow; the model
  uses unbounded integers.
- JSON serialisation is modelled as an exact round trip of `ImageIndex`. A malformed file,
  which makes `Deserialize` throw, is not modelled.
- Text.LeqIgnoreCase: orders strings by Unicode code point, whereas .NET's OrdinalIgnoreCase
  compares UTF-16 code units. The two orders differ when a character outside the Basic
  Multilingual Plane meets one in U+E000 to U+FFFF at the same position, so such names can be
  built in a different order.
- `File.ReadAllBytes` is the total `readAllBytes` parameter. A read that fails after
  `File.Exists` succeeded, say from a permission error or a file removed in between, throws
  out of `Post`; the model does not capture this.
- `Path.GetFullPath` is not modelled: paths are taken as already normalised, with `/` as
  the separator. Case mapping is ASCII only.
- Files whose `Path` is null are treated like an empty path.
- Console logging is left out. So is the progress message every 25 items: `done` is
  returned as an out-parameter instead.
- `Directory.CreateDirectory`, Program.cs hosting, Swagger attributes and concurrent
  access to the index file are not modelled.

## Findings

| source | as written | input that shows it | evidently intended | confidence | as-written member | corrected member |
|---|---|---|---|---|---|---|
| Controllers/ImageController.cs:26-30 | `Get` returns null when there is no model, no index item or no match, or when an exception is swallowed; `Post` then runs `foreach` over null, which throws NullReferenceException | an index whose only embedding is [1, 0], queried with an upload whose embedding is [0, 1]: similarity 0 is below 0.8, so `QueryNearest` and `Get` return null | answer 404 "Imagem não encontrada." as the action's own response attributes declare | high, not executed | ImageController.Post, ImageController.NoQualifyingMatchYieldsNull | ImageController.PostCorrected |
