/** The single-image recogniser `ImageOCR`. The PaddleOCR engine it wraps is
    not modelled: what its `ocr(image_path, cls=True)` call does for a path
    (raise, or return a result) is given as a function, and whether a path
    exists on disk is given as a predicate. */
module ImageOcr {
  import opened Base
  import opened Paths

  /** One detection of the engine: the four corners of the text box, the
      recognised text and its confidence. */
  datatype Detection = Detection(box: seq<(int, int)>, text: string, confidence: real)

  /** What the engine's `ocr` call returns: None, or one entry per page, an
      entry being None when nothing was found on that page. */
  type EngineResult = Option<seq<Option<seq<Detection>>>>

  /** An `ImageOCR` object. The constructor sets its engine once and nothing
      changes it afterwards, so the object is a value: the GPU flag it was
      built with and what its engine does for each path. */
  datatype Ocr = Ocr(useGpu: bool, engine: Path -> Attempt<EngineResult>)

  /** `ImageOCR.recognize_image`: the detections of the first page, or None
      when the file is missing, when the engine raises (the exception is
      caught here) or when it returns None or no page. */
  function RecognizeImage(ocr: Ocr, imagePath: Path, onDisk: Path -> bool): Option<seq<Detection>>
  {
    if !onDisk(imagePath) then None
    else match ocr.engine(imagePath)
      case Raised(_) => None
      case Returned(result) =>
        if result.None? || |result.value| == 0 then None
        else result.value[0]
  }

  /** The cases in which `recognize_image` gives None, and the value it gives
      otherwise. */
  lemma RecognizeImageCases(ocr: Ocr, imagePath: Path, onDisk: Path -> bool)
    ensures RecognizeImage(ocr, imagePath, onDisk).None? <==>
      || !onDisk(imagePath)
      || ocr.engine(imagePath).Raised?
      || ocr.engine(imagePath).value.None?
      || |ocr.engine(imagePath).value.value| == 0
      || ocr.engine(imagePath).value.value[0].None?
    ensures RecognizeImage(ocr, imagePath, onDisk).Some? ==>
      RecognizeImage(ocr, imagePath, onDisk) == ocr.engine(imagePath).value.value[0]
  {
  }

  /** For a missing file the engine is never consulted: two recognisers that
      differ only in their engines answer the same. */
  lemma MissingFileSkipsEngine(a: Ocr, b: Ocr, imagePath: Path, onDisk: Path -> bool)
    requires !onDisk(imagePath)
    ensures RecognizeImage(a, imagePath, onDisk) == RecognizeImage(b, imagePath, onDisk) == None
  {
  }

  /** `ImageOCR.get_text_only`: None exactly when `recognize_image` gives
      None, otherwise the text of every detection, in order. */
  function GetTextOnly(ocr: Ocr, imagePath: Path, onDisk: Path -> bool): (r: Option<seq<string>>)
    ensures r.None? <==> RecognizeImage(ocr, imagePath, onDisk).None?
    ensures r.Some? ==>
      var detections := RecognizeImage(ocr, imagePath, onDisk).value;
      |r.value| == |detections| &&
      forall i :: 0 <= i < |detections| ==> r.value[i] == detections[i].text
  {
    match RecognizeImage(ocr, imagePath, onDisk)
    case None => None
    case Some(detections) => Some(seq(|detections|, i requires 0 <= i < |detections| => detections[i].text))
  }

  /** `process_image`: build one recogniser and return its `get_text_only`.
      Only the construction can raise; once built, the answer is exactly
      that of `get_text_only`. */
  function ProcessImage(imagePath: Path, built: Attempt<Ocr>, onDisk: Path -> bool): (r: Attempt<Option<seq<string>>>)
    ensures r.Raised? <==> built.Raised?
    ensures r.Raised? ==> r.message == built.message
    ensures r.Returned? ==> r.value == GetTextOnly(built.value, imagePath, onDisk)
  {
    match built
    case Raised(e) => Raised(e)
    case Returned(ocr) => Returned(GetTextOnly(ocr, imagePath, onDisk))
  }
}
