/**
 * The HTTP endpoint of ImageController: checks the upload, runs the search, turns each
 * usable match into a response entry (file name, MIME type, bytes) and answers
 * BadRequest, NotFound or Ok. File existence and file contents are parameters, and so is
 * the search, which stands for ImageService.Get on the uploaded bytes.
 */
module ImageController {
  import opened Common
  import opened Text
  import ImageService
  import Vectors

  const OctetStream: string := "application/octet-stream"
  const NoFileMessage: string := "Arquivo de imagem n\U{00E3}o enviado."
  const NotFoundMessage: string := "Imagem n\U{00E3}o encontrada."

  datatype ImageData = ImageData(name: string, mimeType: string, image: seq<byte>)

  /** The uploaded form file; its Length is the length of its content. */
  datatype FormFile = FormFile(content: seq<byte>)

  /** The form; its image field is null when no file was sent. */
  datatype UploadRequest = UploadRequest(image: Option<FormFile>)

  /** The action's outcome; Unhandled is an exception that escapes the action. */
  datatype Response =
    | BadRequest(message: string)
    | NotFound(message: string)
    | Ok(images: seq<ImageData>)
    | Unhandled

  /** The switch from a lower-cased extension to a MIME type. */
  function MimeType(extension: string): string {
    if extension == ".jpg" || extension == ".jpeg" then "image/jpeg"
    else if extension == ".png" then "image/png"
    else if extension == ".gif" then "image/gif"
    else if extension == ".bmp" then "image/bmp"
    else if extension == ".tiff" then "image/tiff"
    else if extension == ".webp" then "image/webp"
    else OctetStream
  }

  /** The MIME type of the file at path: its extension, lower-cased, through the switch. */
  function MimeTypeOf(path: string): string {
    MimeType(ToLower(GetExtension(path)))
  }

  /**
   * The switch names exactly the seven extensions an index build accepts: each of them
   * gives "image/" followed by the extension without its dot (".jpg" giving "image/jpeg"),
   * and every other extension, the empty one included, gives the octet-stream type.
   * The case of the path does not matter.
   */
  lemma MimeTypeOfCorrect(path: string)
    ensures var e := ToLower(GetExtension(path));
      ImageService.HasSupportedExtension(path) ==>
        MimeTypeOf(path) == "image/" + (if e == ".jpg" then "jpeg" else e[1..])
    ensures MimeTypeOf(path) != OctetStream <==> ImageService.HasSupportedExtension(path)
    ensures MimeTypeOf(ToLower(path)) == MimeTypeOf(path)
  {
    GetExtensionToLower(path);
    ToLowerProperties(GetExtension(path));
  }

  /** A match the action can serve: a non-empty path naming an existing file. */
  predicate Servable(m: ImageService.MatchResult, fileExists: string -> bool) {
    |m.path| > 0 && fileExists(m.path)
  }

  function EntryFor(path: string, readAllBytes: string -> seq<byte>): ImageData {
    ImageData(GetFileName(path), MimeTypeOf(path), readAllBytes(path))
  }

  /** The entries the action lists for these matches, in match order. */
  function Collected(matches: seq<ImageService.MatchResult>, fileExists: string -> bool,
                     readAllBytes: string -> seq<byte>): seq<ImageData>
    decreases |matches|
  {
    if matches == [] then []
    else
      var last := matches[|matches| - 1];
      Collected(matches[..|matches| - 1], fileExists, readAllBytes)
        + (if Servable(last, fileExists) then [EntryFor(last.path, readAllBytes)] else [])
  }

  /** The foreach of the action: skips unusable matches, reads and describes the others. */
  method CollectImages(matches: seq<ImageService.MatchResult>, fileExists: string -> bool,
                       readAllBytes: string -> seq<byte>)
    returns (imageDataList: seq<ImageData>)
    ensures imageDataList == Collected(matches, fileExists, readAllBytes)
  {
    imageDataList := [];
    for i := 0 to |matches|
      invariant imageDataList == Collected(matches[..i], fileExists, readAllBytes)
    {
      assert matches[..i + 1][..i] == matches[..i];
      var match_ := matches[i];
      if |match_.path| == 0 || !fileExists(match_.path) {
        continue;
      }
      // The action repeats the same test (Controllers/ImageController.cs:32 and 35);
      // it never skips anything the first did not.
      if |match_.path| == 0 || !fileExists(match_.path) {
        continue;
      }
      var imageBytes := readAllBytes(match_.path);
      var extension := ToLower(GetExtension(match_.path));
      var mimeType := MimeType(extension);
      var imageData := ImageData(GetFileName(match_.path), mimeType, imageBytes);
      imageDataList := imageDataList + [imageData];
    }
    assert matches[..|matches|] == matches;
  }

  /** Listing a concatenation lists each part: skipping a match never disturbs the others. */
  lemma {:induction false} CollectedAppend(a: seq<ImageService.MatchResult>, b: seq<ImageService.MatchResult>,
                                           fileExists: string -> bool, readAllBytes: string -> seq<byte>)
    ensures Collected(a + b, fileExists, readAllBytes)
         == Collected(a, fileExists, readAllBytes) + Collected(b, fileExists, readAllBytes)
    decreases |b|
  {
    if b == [] {
      assert a + b == a;
    } else {
      var b' := b[..|b| - 1];
      assert (a + b)[..|a + b| - 1] == a + b';
      assert (a + b)[|a + b| - 1] == b[|b| - 1];
      CollectedAppend(a, b', fileExists, readAllBytes);
    }
  }

  /**
   * The listing has no more entries than there are matches; each entry is the file
   * name, MIME type and bytes of a servable match; every servable match is listed; and
   * the listing is empty exactly when no match is servable.
   */
  lemma {:induction false} CollectedCorrect(matches: seq<ImageService.MatchResult>, fileExists: string -> bool,
                                            readAllBytes: string -> seq<byte>)
    ensures |Collected(matches, fileExists, readAllBytes)| <= |matches|
    ensures forall e :: e in Collected(matches, fileExists, readAllBytes) ==>
      exists k :: 0 <= k < |matches| && Servable(matches[k], fileExists)
               && e == ImageData(GetFileName(matches[k].path), MimeTypeOf(matches[k].path),
                                 readAllBytes(matches[k].path))
    ensures forall k :: 0 <= k < |matches| && Servable(matches[k], fileExists) ==>
      EntryFor(matches[k].path, readAllBytes) in Collected(matches, fileExists, readAllBytes)
    ensures Collected(matches, fileExists, readAllBytes) == [] <==>
      forall k :: 0 <= k < |matches| ==> !Servable(matches[k], fileExists)
    decreases |matches|
  {
    if matches != [] {
      var init := matches[..|matches| - 1];
      var last := matches[|matches| - 1];
      CollectedCorrect(init, fileExists, readAllBytes);
      var c := Collected(matches, fileExists, readAllBytes);
      var ci := Collected(init, fileExists, readAllBytes);
      assert forall k :: 0 <= k < |init| ==> init[k] == matches[k];
      forall e | e in c
        ensures exists k :: (0 <= k < |matches| && Servable(matches[k], fileExists)
                             && e == ImageData(GetFileName(matches[k].path), MimeTypeOf(matches[k].path),
                                               readAllBytes(matches[k].path)))
      {
        if e !in ci {
          assert Servable(last, fileExists) && e == EntryFor(last.path, readAllBytes);
          assert matches[|matches| - 1] == last;
        }
      }
    }
  }

  /** Whether the request carries no file, or an empty one. */
  predicate NoUpload(request: Option<UploadRequest>) {
    request.None? || request.value.image.None? || |request.value.image.value.content| == 0
  }

  /**
   * Post as written: a missing or empty upload is a BadRequest and nothing is searched;
   * otherwise the search runs, and when it yields null the foreach over it throws;
   * otherwise the servable matches are listed, NotFound when none is, else Ok.
   */
  method Post(request: Option<UploadRequest>,
              search: seq<byte> -> Option<seq<ImageService.MatchResult>>,
              fileExists: string -> bool, readAllBytes: string -> seq<byte>)
    returns (response: Response)
    ensures NoUpload(request) ==> response == BadRequest(NoFileMessage)
    ensures !NoUpload(request) ==>
      var result := search(request.value.image.value.content);
      if result.None? then response == Unhandled
      else
        var list := Collected(result.value, fileExists, readAllBytes);
        response == if list == [] then NotFound(NotFoundMessage) else Ok(list)
  {
    if NoUpload(request) {
      return BadRequest(NoFileMessage);
    }
    var result := search(request.value.image.value.content);
    if result.None? {
      // foreach over a null sequence: NullReferenceException.
      return Unhandled;
    }
    var imageDataList := CollectImages(result.value, fileExists, readAllBytes);
    if |imageDataList| == 0 {
      return NotFound(NotFoundMessage);
    }
    return Ok(imageDataList);
  }

  /**
   * A non-empty index and a query that shows Post's null case is reachable: the only
   * item is orthogonal to the query, nothing reaches the threshold, the query answers
   * absent and Get passes that null on to the action.
   */
  lemma NoQualifyingMatchYieldsNull()
    ensures ImageService.QueryNearest(
              ImageService.Present(Some(ImageService.ImageIndex(Some(
                [ImageService.IndexItem("imagens_temp/cat.jpg", Some([1.0, 0.0]))])))),
              Some([0.0, 1.0]))
         == Returned(None)
  {
    var items := [ImageService.IndexItem("imagens_temp/cat.jpg", Some([1.0, 0.0]))];
    var q, e := [0.0, 1.0], [1.0, 0.0];
    assert Vectors.Dot(q, e, 1) == Vectors.Dot(q, e, 0) + 0.0 * 1.0 == 0.0;
    assert Vectors.Dot(q, e, 2) == Vectors.Dot(q, e, 1) + 1.0 * 0.0 == 0.0;
    assert Vectors.Similarity(q, e) == 0.0;
    assert items[1..] == [];
    assert ImageService.Qualifying(items, [0.0, 1.0]) == [];
  }

  /**
   * Post with the null search result answered as the endpoint documents it, NotFound.
   * It never ends in an unhandled exception, and Ok always carries at least one entry.
   */
  method PostCorrected(request: Option<UploadRequest>,
                       search: seq<byte> -> Option<seq<ImageService.MatchResult>>,
                       fileExists: string -> bool, readAllBytes: string -> seq<byte>)
    returns (response: Response)
    ensures response != Unhandled
    ensures response.Ok? ==> |response.images| > 0
    ensures NoUpload(request) ==> response == BadRequest(NoFileMessage)
    ensures !NoUpload(request) ==>
      var result := search(request.value.image.value.content);
      var list := if result.None? then [] else Collected(result.value, fileExists, readAllBytes);
      response == if list == [] then NotFound(NotFoundMessage) else Ok(list)
  {
    if NoUpload(request) {
      return BadRequest(NoFileMessage);
    }
    var result := search(request.value.image.value.content);
    if result.None? {
      return NotFound(NotFoundMessage);
    }
    var imageDataList := CollectImages(result.value, fileExists, readAllBytes);
    if |imageDataList| == 0 {
      return NotFound(NotFoundMessage);
    }
    return Ok(imageDataList);
  }
}
