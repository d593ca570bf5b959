# PDF and picture OCR batch tools, modelled in Dafny

The repository converts PDFs to markdown and puts the text recognised in
their pictures next to the pictures. It has five core scripts, and this
project models each of them:

- `pdf_recog.py` walks one directory. It hands every PDF to the converter,
  writing into `output/<last name of the directory>`.
- `pdf_recog_parallel.py` checks that every input directory exists and counts
  their PDFs. It then runs the one-directory pass on each directory in a task
  of its own, with up to three attempts per task.
- `image_ocr.py` is the single-image recogniser `ImageOCR`. It turns the
  engine's answer into the texts it found.
- `image_ocr_parallel.py` recognises every picture under a directory. It
  writes one `.txt` file per picture that has text and a report listing every
  picture's record. A task retries when the recogniser cannot be built.
- `process_markdown_images.py` rewrites every markdown document under a
  directory into an output tree at the same relative place. Each record of
  a picture the document links to, and that exists, replaces every
  occurrence of its link on its line with a block of the recognised text
  followed by the link. A picture with no recognised text gets no block. A
  link recorded `n` times on a line ends up with `n` blocks before each of
  its occurrences.

How the model is organised:

- Paths are their `/`-separated components (`Paths`). The `os.path`
  functions used (`join`, `basename`, `dirname`, `splitext`, `normpath`,
  `abspath` and `relpath`) are written out on that representation.
- `os.walk` is given as the sequence of directories it yields (`Walk`).
- The pieces of the system that cannot be seen are given as functions:
  - the OCR engine and whether building a recogniser raises;
  - the PDF converter;
  - whether a path exists, and what `os.makedirs` does;
  - whether a file can be written.
- A call that may raise yields an `Attempt`: it either raised with a message
  or returned a value.
- The three retry loops share one search for the first attempt that does not
  raise (`Base.FirstReturn`).
- The worker pools are run one task after another. A task list is processed
  in an arbitrary completion order `order`, which the caller supplies.

Loops that build lists or update state are methods with loop invariants.
Each is proved equal to a specification function, and the properties are
proved as lemmas about those functions:

- `MarkdownImages.ApplyOcr` updates the document's lines in place in an
  `array`.
- `ProcessDirectory`, `CountPdfFiles`, `GetImageFiles`, `FindMarkdownFiles`
  and `ExtractImagesFromMarkdown` are the nested loops. Except in
  `CountPdfFiles`, each inner loop is a method of its own: `ConvertFiles`,
  `ImageFilesIn`, `MarkdownFilesIn` and `ExtractLine`, whose body for one
  match is `ExtractMatch`.
- The retry loops and the parallel passes are methods too.

In `process_parallel`, the tasks' results are taken in completion order but
paired with the input directories in submission order (`zip`). The model
keeps that pairing:

- `PdfRecogParallel.ReportsInSubmissionOrder` proves the pairing is right
  when tasks complete in submission order.
- `PdfRecogParallel.ReportsSwapped` shows two directories whose reports
  exchange their results when the tasks complete the other way round.

## Model

| member | source | states |
|---|---|---|
| Base.FirstReturn | pdf_recog_parallel.py:23-36 | a retry loop over `range(limit)` stops at an attempt exactly when one within the limit returns; it is the first such attempt, and every earlier one raised |
| Base.FirstReturnAt | pdf_recog_parallel.py:23-27 | if exactly the attempts before `k` raise and attempt `k` returns, the loop stops at `k` |
| Text.JoinSplit | process_markdown_images.py:122 | splitting a string on a character and joining the parts back with that character gives the string back |
| Text.SplitJoin | process_markdown_images.py:122 | joining newline-free parts with a newline and splitting the result gives the parts back |
| Text.ReplaceAbsent | process_markdown_images.py:129 | `str.replace` leaves a line without an occurrence unchanged |
| Text.ReplaceSingle | process_markdown_images.py:129 | replacing a text that occurs once puts the replacement exactly at that occurrence |
| Text.ReplaceInJoin | process_markdown_images.py:129 | `str.replace` replaces every occurrence, not just the first one |
| Text.ReplaceAll | process_markdown_images.py:129 | `str.replace`: every occurrence, found left to right without overlap, is replaced; `ReplaceAbsent`, `ReplaceSingle` and `ReplaceInJoin` state what it does to lines with none, one or several occurrences |
| Paths.Join | process_markdown_images.py:55 | `os.path.join`: an absolute right side replaces the left, otherwise the names are appended; `JoinKeepsAbs` and `DirnameOfJoin` state its properties |
| Paths.Dirname | process_markdown_images.py:42 | `os.path.dirname`: everything before the last name; `DirnameOfJoin` states that it undoes joining a name |
| Paths.DirnameOfJoin | process_markdown_images.py:42 | the directory of a file joined to a directory is that directory, and its last name is the file name |
| Paths.JoinKeepsAbs | process_markdown_images.py:55 | joining a relative path keeps a path absolute or relative |
| Paths.SplitExtParts | image_ocr_parallel.py:21 | `splitext` splits a name into a stem and an extension that together give the name; the extension is empty or is one dot followed by no other dot |
| Paths.SplitExt | image_ocr_parallel.py:21 | `os.path.splitext` of one name: split at the last dot unless only dots precede it; `SplitExtParts` and `SplitExtDotted` state its parts |
| Paths.SplitExtDotted | image_ocr_parallel.py:21 | a dot-free base, a dot and a dot-free extension split into that base and the dotted extension |
| Paths.Normpath | pdf_recog.py:12 | `os.path.normpath` is never empty; `NormpathTrailingSlash` states that a trailing slash does not change its last name |
| Paths.NormpathTrailingSlash | pdf_recog.py:12 | the last name of the normalised path does not depend on a trailing slash |
| Paths.RelPathOfWalkedFile | process_markdown_images.py:20 | the path of a walked file relative to the top of the walk is its sub-directories followed by its name |
| Paths.RelPath | process_markdown_images.py:20 | `os.path.relpath`: None for an empty path (ValueError); otherwise the climb from `start` to the common ancestor and the rest of the path; `RelPathOfWalkedFile` states it for walked files |
| Walk.SelectMembers | process_markdown_images.py:29-32 | a path is found exactly when it joins a walked directory and one of its file names that passes the test |
| Walk.SelectKeeps | image_ocr_parallel.py:38-41 | the last name of every path found passes the test |
| Walk.SelectCount | pdf_recog_parallel.py:49-51 | the number of files counted equals the number of paths the same walk finds |
| Walk.CountAppend | pdf_recog_parallel.py:49-51 | counting two walks one after the other gives the sum of their counts |
| ImageOcr.RecognizeImage | image_ocr.py:20-46 | the first page of the engine's answer, or None; `RecognizeImageCases` and `MissingFileSkipsEngine` state its cases |
| ImageOcr.RecognizeImageCases | image_ocr.py:20-46 | `recognize_image` gives None exactly when the file is missing, the engine raises, returns None, returns no page or returns None for the first page; otherwise it gives the first page |
| ImageOcr.MissingFileSkipsEngine | image_ocr.py:33-35 | for a missing file the engine is not consulted |
| ImageOcr.GetTextOnly | image_ocr.py:48-62 | None exactly when `recognize_image` gives None; otherwise the text of each detection, in order |
| ImageOcr.ProcessImage | image_ocr.py:64-76 | only building the recogniser raises, with its message; otherwise the answer is that of `get_text_only` |
| MarkdownScan.MatchAt | process_markdown_images.py:48 | a match tried at index `i` starts at `i` and is a well-formed match; `MatchAtIsLeftmostLazy` states that it is the lazy pattern's match |
| MarkdownScan.MatchAtIsLeftmostLazy | process_markdown_images.py:48 | a match attempt succeeds exactly when some placement of the pattern `!\[.*?\]\((.*?)\)` fits without crossing a newline; it takes the first `](` and then the first `)` |
| MarkdownScan.MatchTextShape | process_markdown_images.py:48 | the text of a match starts with `![` and ends with `)` |
| MarkdownScan.ScanFrom | process_markdown_images.py:51 | `finditer` from an index yields well-formed matches starting at or after it; `ScanOrdered`, `ScanMatchesAt` and `ScanCovers` state its order and completeness |
| MarkdownScan.Scan | process_markdown_images.py:51 | `re.finditer` over a whole line |
| MarkdownScan.ScanOrdered | process_markdown_images.py:51 | `finditer` yields matches left to right without overlap |
| MarkdownScan.ScanMatchesAt | process_markdown_images.py:51 | every match yielded is the match the pattern makes at its start |
| MarkdownScan.ScanCovers | process_markdown_images.py:51 | every position where the pattern could match lies inside a yielded match |
| MarkdownScan.LineRefs | process_markdown_images.py:52-57 | a line's records all carry its number and name existing files; there is at most one record per match |
| MarkdownScan.LineRefsComplete | process_markdown_images.py:52-57 | every match of a line whose joined path exists is recorded |
| MarkdownScan.LineRefsFromSpans | process_markdown_images.py:52-57 | every record of a line is the record of one of its matches |
| MarkdownScan.ExtractLines | process_markdown_images.py:50-57 | the records name lines of the document and existing files |
| MarkdownScan.ExtractLinesSorted | process_markdown_images.py:50-57 | the records are in line order |
| MarkdownScan.LineRefsOrder | process_markdown_images.py:51-57 | two records of a line come from two of its matches, in the same order |
| MarkdownScan.LineRefsLeftToRight | process_markdown_images.py:51-57 | the records of a line follow its matches left to right, an earlier one ending before a later one starts |
| MarkdownScan.ExtractedFromScan | process_markdown_images.py:50-57 | every record comes from a match on the line it names |
| MarkdownScan.RecordedRefShape | process_markdown_images.py:57 | a recorded link text is a substring of its line that starts with `![` and ends with `)` |
| MarkdownScan.ExistingMatchRecorded | process_markdown_images.py:55-57 | every match whose path, joined to the document's directory, exists is recorded |
| MarkdownScan.MatchAtIn | process_markdown_images.py:48 | where a text that is by itself a whole match occurs, the pattern matches exactly that occurrence |
| MarkdownScan.ScanJoin | process_markdown_images.py:51 | a line made of `!`-free pieces separated by one whole match has one match per occurrence, each with that link's text and path |
| MarkdownScan.ExtractLine | process_markdown_images.py:51-57 | the loop over one line's matches appends exactly that line's records |
| MarkdownScan.ExtractMatch | process_markdown_images.py:52-57 | one match adds its record, with the joined path, the literal match and the line index, exactly when the joined path exists |
| MarkdownScan.ExtractImagesFromMarkdown | process_markdown_images.py:35-59 | the nested loop over lines and matches computes the records |
| MarkdownImages.IsMarkdownName | process_markdown_images.py:31 | the name ends with `.md`; `MarkdownNameExamples` and `FoundAreMarkdown` state the test |
| MarkdownImages.MarkdownNameExamples | process_markdown_images.py:31 | the `.md` test is case-sensitive and tests only the suffix |
| MarkdownImages.FindMarkdownFiles | process_markdown_images.py:24-33 | the loop returns the joined path of every `.md` file, in walk order |
| MarkdownImages.MarkdownFilesIn | process_markdown_images.py:30-32 | the loop over one directory appends the joined path of each of its `.md` files |
| MarkdownImages.FoundAreMarkdown | process_markdown_images.py:31-32 | every path found ends with `.md` |
| MarkdownImages.GetNewOutputPath | process_markdown_images.py:10-22 | there is no output path exactly when the document's path is empty (`relpath` raises) |
| MarkdownImages.OutputMirrorsInput | process_markdown_images.py:10-22 | a walked document goes to the same sub-directories and name under the output base |
| MarkdownImages.FoundDocumentsMirrored | process_markdown_images.py:87 | every document found goes to its place in the mirrored output tree |
| MarkdownImages.TextsOrEmpty | process_markdown_images.py:69-71 | the texts are kept when the answer is a non-empty list; otherwise the result is empty |
| MarkdownImages.ProcessImageWithRetry | process_markdown_images.py:61-78 | the loop returns the texts of the first call that does not raise, or none, and makes calls up to and including that one |
| MarkdownImages.RetryCallsBound | process_markdown_images.py:66-78 | at most `max_retries` calls, and all of them when every call raises |
| MarkdownImages.RetryStopsAtFirstAnswer | process_markdown_images.py:66-71 | the loop stops after the first call that returns, with that call's texts or none |
| MarkdownImages.OcrRetryMakesOneCall | process_markdown_images.py:68 | since `get_text_only` never raises, one call is made and its texts are kept |
| MarkdownImages.BlockHead | process_markdown_images.py:122-126 | the block put before a link: the texts joined by newlines between the two marker lines; `BlockHeadAvoids` states what it contains |
| MarkdownImages.BlockHeadAvoids | process_markdown_images.py:122-126 | the inserted block contains no `!` when the texts contain none |
| MarkdownImages.Rewrite | process_markdown_images.py:117-132 | the update loop keeps the number of lines |
| MarkdownImages.ApplyOcr | process_markdown_images.py:117-132 | the in-place loop leaves the lines equal to the specified rewrite of the original lines |
| MarkdownImages.RewriteKeepsLine | process_markdown_images.py:117-132 | a line none of whose pictures yields texts is left as it was |
| MarkdownImages.RewriteSingle | process_markdown_images.py:129 | a line with one picture whose link occurs once gets the block inserted just before the link |
| MarkdownImages.RewriteRepeated | process_markdown_images.py:129 | a link that occurs and is recorded `n` times on a line ends up with `n` copies of the block before every occurrence |
| MarkdownImages.StackOnce | process_markdown_images.py:129 | one more replacement adds one more block before every occurrence of the link |
| MarkdownImages.CountOnLines | process_markdown_images.py:50-57 | the records of a line in the whole document are exactly those of that line's own matches |
| MarkdownImages.RepeatedLinkRecords | process_markdown_images.py:50-57 | a link occurring `n` times on a line, with no other `!` there, is recorded `n` times, and no other record names that line |
| MarkdownImages.RepeatedLinkBlocks | process_markdown_images.py:117-132 | such a link, whose picture yields texts without `!`, ends up with `n` blocks before each of its `n` occurrences |
| MarkdownImages.Update | process_markdown_images.py:80-138 | the outcome of one document; `UpdateFailureCases`, `UpdateCopiesWithoutPictures` and `UpdateKeepsOtherLines` state its cases |
| MarkdownImages.UpdateMarkdownWithOcr | process_markdown_images.py:80-138 | the method's outcome is the specified outcome of one document |
| MarkdownImages.UpdateFailureCases | process_markdown_images.py:87-104 | a document fails exactly when its path is empty, its output directory cannot be made, or it has pictures and the recogniser cannot be built |
| MarkdownImages.UpdateCopiesWithoutPictures | process_markdown_images.py:95-99 | a document without recorded pictures is copied unchanged, whatever building the recogniser would do |
| MarkdownImages.UpdateKeepsOtherLines | process_markdown_images.py:117-136 | a written document has as many lines as before; every line without a recorded picture is unchanged |
| MarkdownImages.ProcessMarkdownParallel | process_markdown_images.py:140-165 | the outcomes are those of the documents found, each handled on its own, taken in completion order |
| MarkdownImages.ParallelOutcomes | process_markdown_images.py:140-165 | one outcome per document found; the i-th is the update of the document finishing i-th; every document's update is reported |
| ImageOcrParallel.GetOutputPath | image_ocr_parallel.py:9-23 | the output directory joined with the picture's stem and `.txt`; `OutputPathShape` and `OutputPathCollides` state its shape and collisions |
| ImageOcrParallel.OutputPathShape | image_ocr_parallel.py:9-23 | the text file lies in the output directory and is named after the picture's stem plus `.txt` |
| ImageOcrParallel.OutputPathCollides | image_ocr_parallel.py:21-23 | pictures with the same stem share one text file, whatever their directory or extension |
| ImageOcrParallel.OutputPathCollisionExample | image_ocr_parallel.py:21-23 | `in/scan.png` and `in/sub/scan.jpg` write the same file |
| ImageOcrParallel.IsImageName | image_ocr_parallel.py:35-40 | the lower-cased name's extension is one of six; `ImageNameExamples` and `FoundAreImages` state the test |
| ImageOcrParallel.ImageNameExamples | image_ocr_parallel.py:35-40 | the extension test ignores case, does not treat a leading dot as an extension, and uses only the listed extensions |
| ImageOcrParallel.GetImageFiles | image_ocr_parallel.py:25-43 | the loop returns the joined path of every picture, in walk order |
| ImageOcrParallel.ImageFilesIn | image_ocr_parallel.py:39-41 | the loop over one directory appends the joined path of each of its pictures |
| ImageOcrParallel.FoundAreImages | image_ocr_parallel.py:40 | the lower-cased extension of every path found is one of the listed extensions |
| ImageOcrParallel.FileTextJoin | image_ocr_parallel.py:55-57 | the file holds each text followed by a newline |
| ImageOcrParallel.FileTextLines | image_ocr_parallel.py:55-57 | splitting the file on newlines gives the texts back, followed by an empty last piece |
| ImageOcrParallel.SaveResultToTxt | image_ocr_parallel.py:45-59 | writes the texts' file at the path when it can be written, and otherwise nothing; it never raises |
| ImageOcrParallel.RecordFields | image_ocr_parallel.py:86-117 | a record has texts exactly when it has no error, and has an error exactly when its status is "error"; a "no_text_found" record has empty texts |
| ImageOcrParallel.ProcessImageWithRetry | image_ocr_parallel.py:61-117 | the method's record, attempt count and saved file are the specified ones |
| ImageOcrParallel.ImageOutcome | image_ocr_parallel.py:61-117 | the record, attempt count and saved file of one task; `ImageOutcomeCases`, `RecordStatus`, `ImageAttemptsBound` and `SavedOnlyOnSuccess` state its cases |
| ImageOcrParallel.ImageOutcomeCases | image_ocr_parallel.py:78-117 | no record without attempts; error exactly when every build raised; success only with the non-empty texts of the first built recogniser; the record names the picture and its text file |
| ImageOcrParallel.RecordStatus | image_ocr_parallel.py:83-98 | a returned record's status is "success" exactly when its texts are non-empty, and "no_text_found" exactly when they are empty |
| ImageOcrParallel.ImageAttemptsBound | image_ocr_parallel.py:78-117 | between one and `max_retries` attempts; all of them exactly when every build but possibly the last raised |
| ImageOcrParallel.ImageStopsAtFirstBuild | image_ocr_parallel.py:78-102 | the task stops at the first build that returns, and that recogniser alone decides the record |
| ImageOcrParallel.SavedOnlyOnSuccess | image_ocr_parallel.py:83-85 | a text file is written exactly for a writable success, under the picture's text file name, holding the record's texts |
| ImageOcrParallel.Collect | image_ocr_parallel.py:151-155 | the records kept are at most one per task, and `CollectAll` states that with three attempts there is exactly one |
| ImageOcrParallel.CollectAll | image_ocr_parallel.py:151-155 | with three attempts every task returns a record, and each record is kept |
| ImageOcrParallel.ReportHoldsEveryPicture | image_ocr_parallel.py:142-157 | whatever the completion order, the report holds the record of every picture |
| ImageOcrParallel.ProcessImagesParallel | image_ocr_parallel.py:119-166 | nothing without pictures; raises when the output directory cannot be made; otherwise the records and text files of every task in completion order, and the report path |
| PdfRecog.OutputBase | pdf_recog.py:12-13 | `output/` and the last name of the normalised input directory; `OutputBaseTrailingSlash` and `OutputBaseShared` state its properties |
| PdfRecog.OutputBaseTrailingSlash | pdf_recog.py:12-13 | a trailing slash does not change the output directory |
| PdfRecog.OutputBaseShared | pdf_recog.py:12-13 | input directories with the same last name share one output directory under `output` |
| PdfRecog.IsPdfName | pdf_recog.py:21 | the lower-cased name ends with `.pdf`; `PdfNameExamples` states the test |
| PdfRecog.PdfNameExamples | pdf_recog.py:21 | the `.pdf` test ignores case and tests only the suffix |
| PdfRecog.CallsEach | pdf_recog.py:19-28 | every PDF is converted once, in order, into the same directory; a raising conversion does not stop the next |
| PdfRecog.ConvertFiles | pdf_recog.py:20-28 | the loop over one directory converts each of its PDF files and records each call |
| PdfRecog.ProcessDirectory | pdf_recog.py:4-28 | the nested loop computes the specified outcome |
| PdfRecog.DirectoryOutcome | pdf_recog.py:4-28 | the outcome of one-directory pass; `DirectoryOutcomeCases` and `CallsEach` state its cases |
| PdfRecog.DirectoryOutcomeCases | pdf_recog.py:4-28 | the pass raises exactly when the output directory cannot be made; otherwise it makes one call per PDF of the walk, in order |
| PdfRecogParallel.GetOutputDir | pdf_recog_parallel.py:8-12 | the announced output directory; `OutputDirAgrees` states that it is the one-directory pass's |
| PdfRecogParallel.OutputDirAgrees | pdf_recog_parallel.py:8-12 | the directory announced is the one the one-directory pass writes to, with or without a trailing slash |
| PdfRecogParallel.ProcessWithRetry | pdf_recog_parallel.py:14-36 | the loop's result and attempt count are the specified ones |
| PdfRecogParallel.RetryResult | pdf_recog_parallel.py:14-36 | the answer of the retry loop; `RetryResultCases` and `RetrySameEveryTime` state its cases |
| PdfRecogParallel.RetryResultCases | pdf_recog_parallel.py:23-36 | True exactly when an attempt within the limit returns; False exactly when all raise, after all of them; None exactly without attempts |
| PdfRecogParallel.RetrySameEveryTime | pdf_recog_parallel.py:23-36 | an attempt outcome that repeats gives True after one attempt, or False after all of them |
| PdfRecogParallel.DirectoryRetry | pdf_recog_parallel.py:23-27 | retrying the one-directory pass succeeds at the first attempt that can make the output directory |
| PdfRecogParallel.CountPdfFiles | pdf_recog_parallel.py:38-52 | the nested loop computes the total PDF count over all directories |
| PdfRecogParallel.TotalIsConverted | pdf_recog_parallel.py:38-52 | the total is the number of PDFs the one-directory passes find, summed |
| PdfRecogParallel.DuplicateCountedTwice | pdf_recog_parallel.py:49-51 | a directory listed twice is counted twice |
| PdfRecogParallel.TotalAppend | pdf_recog_parallel.py:49-51 | counting two lists of directories gives the sum of their counts |
| PdfRecogParallel.FirstMissing | pdf_recog_parallel.py:63-66 | the first directory that does not exist, with every earlier one existing; none when all exist |
| PdfRecogParallel.FirstMissingAt | pdf_recog_parallel.py:63-66 | if the earlier directories exist and directory `i` does not, `i` is the first missing one |
| PdfRecogParallel.ProcessParallel | pdf_recog_parallel.py:54-90 | the method's outcome is the specified one |
| PdfRecogParallel.ParallelOutcome | pdf_recog_parallel.py:54-90 | the outcome of the parallel pass for a completion order; `ParallelOutcomeCases`, `ReportsInSubmissionOrder` and `ReportsSwapped` state it |
| PdfRecogParallel.ParallelOutcomeCases | pdf_recog_parallel.py:54-90 | the pass stops exactly when a directory is missing, naming it; otherwise every directory gets a task whose result appears in the report at the place where that task completed (`Position`), every task answers, and the total is the number of PDFs |
| PdfRecogParallel.ReportsInSubmissionOrder | pdf_recog_parallel.py:84-90 | when tasks complete in submission order, each report names the directory whose result it gives |
| PdfRecogParallel.ReportsSwapped | pdf_recog_parallel.py:84 | when two tasks complete the other way round, the failing directory is reported as successful and the other as failed |

## Left out

- The worker pools, `max_workers` and concurrency are not modelled. Tasks run one after another in a given completion order. The image and PDF task functions catch their own exceptions. `update_markdown_with_ocr` does not: its `relpath`, `makedirs` and recogniser errors reach `future.result()`. The model gives them as that document's `Failed` outcome, and leaves out only their printing. Failures of the pool machinery itself, such as a worker process dying, are not modelled.
- `time.sleep`, `gc.collect` and every `print` are left out. They do not affect results. The messages `process_parallel` prints for failed directories appear only as its labelled reports.
- File contents are not modelled:
  - Reading files is left out. A markdown document is given as its lines, and the model reads it once instead of twice.
  - Errors raised while reading a file are left out.
  - `shutil.copy2` and the copy of the `images` directory (`shutil.copytree`) are left out. A copy is recorded as its destination and lines.
  - The `json.dump` of the report is left out. The report is its path and its records.
- The OCR engine (PaddleOCR) and the PDF converter are not modelled; each is given as a function. `minerU_call.py` is not part of this model.
- `use_gpu` is only a field of the recogniser. The engine's behaviour under it is part of the given engine function.
- The `__main__` blocks are left out. They only set constants and parse arguments.
- `Text.Lower` lower-cases ASCII letters only. Python's `str.lower` also folds other letters.
- Paths are POSIX-only. `~`, `\` separators, drive letters and symbolic links are not modelled. `os.path.exists` is a given predicate.
- ImageOcrParallel.SaveResultToTxt: the failure of `os.makedirs` and `open` is folded into one predicate, `writable`. The error message it prints is left out.
- MarkdownImages.RewriteRepeated: the `n` blocks before a repeated link are proved only for a line where every record is that link, and where neither the text outside its occurrences nor the recognised texts contain `!`. A line such as `Wow! ![a](p) ![a](p)`, a line holding another link, or texts containing `!` are still rewritten by `Rewrite`, but no lemma states the result's shape.
- MarkdownImages.RepeatedLinkBlocks: the same conditions as `RewriteRepeated`. The link must also be, by itself, one whole match of the pattern.
- PdfRecog.ProcessDirectory: the converter's return values are kept in each call record but not used further, just as the script only prints them.
- `os.walk` errors are left out: the walk of a missing directory is given as an empty walk.
