# Greedy OCR text recognizer (yas), modelled in Dafny

This project models the core of yas's OCR model wrapper (`YasOCRModel`). The
wrapper turns small image crops into text with a pre-trained sequence
recognition network. It does three things:

- It builds the label alphabet from the label file. The file is an object
  from decimal class ids to labels. Its entries are sorted ascending by id
  and the ids are dropped, so index i holds the label of the i-th smallest
  id (module `Labels`, `labels.dfy`).
- It decodes the network's output greedily (module `Decoder`,
  `decoder.dfy`). At each timestep it picks one class by a left-to-right
  scan. The scan uses a strict `>` against a running maximum that starts at
  -1, so the lowest index wins ties, and index 0 is picked when no score
  beats -1. Only the first |alphabet| scores of a timestep are read. A label
  is appended when it differs from the previous timestep's label and is not
  the blank `"-"`. The previous label is updated at every timestep, blanks
  included. `GreedyDecode` is the imperative nested loop, with invariants.
  Its postcondition equates the result with `Transcript`, an independent
  definition: split the per-timestep labels into maximal runs of equal
  labels (`RunsOf`, proved to be the unique maximal run decomposition),
  drop the runs of the blank, and join the remaining runs' labels.
- It offers recognition of three image kinds, and keeps running statistics
  (class `Recognizer.OcrModel`). A crop that is not yet preprocessed goes
  through preprocessing first. If preprocessing reports a uniform crop, the
  result is `""`: inference does not run and the statistics stay unchanged.
  Otherwise inference runs. Each successful inference adds one to the
  invocation counter and its duration to the total time. The ghost
  `history` lists those durations; `Valid()` ties the counter and the total
  to it, so the average is the mean of the recorded durations.

The network, the preprocessing functions and the clock are not modelled.
The network is a function from a buffer to `Option<Scores>`. The
preprocessing functions are given to the constructor. Each inference call
receives its elapsed time as an `Option<Seconds>`, where `None` means the
clock failed. Scores are `real`s, not `f32`s.

Three behaviours of the code shape the model:

- The decoder panics when a timestep has fewer scores than there are
  labels, or when the alphabet is empty and there is at least one timestep.
  The model states this as the precondition `WellShaped` (`Fits` for a
  buffer given to the network).
- Only the first |alphabet| scores of a timestep are read; any further
  columns are ignored (`BestIndexIgnoresTail`).
- A label file that is not valid JSON makes the constructor return an
  error (yas_ocr_model.rs:42). Valid JSON of the wrong shape panics: a value
  that is not an object (line 46), a key that does not parse as a `usize`, or
  a label that is not a string (line 48). The model starts from the already
  parsed entries.

## Model

| member | source | states |
|---|---|---|
| `Labels.SortByKey` | yas/src/ocr/yas_model/yas_ocr_model.rs:51 | the entries come out ordered by ascending id, as a permutation of the input (same multiset, same length) |
| `Labels.Alphabet` | yas/src/ocr/yas_model/yas_ocr_model.rs:44-53 | the alphabet has one label per entry; label i is paired in the file with the id at sorted position i; with distinct ids, exactly i ids of the file are smaller than that id, so index i holds the label of the i-th smallest id |
| `Labels.SortedRanks` | yas/src/ocr/yas_model/yas_ocr_model.rs:44-53 | with distinct ids, the id at sorted position i has exactly i smaller ids in the file |
| `Labels.SortedStrictly` | yas/src/ocr/yas_model/yas_ocr_model.rs:51 | with distinct ids, the sorted entries have strictly increasing ids |
| `Labels.CountBelowSort` | yas/src/ocr/yas_model/yas_ocr_model.rs:51 | sorting keeps the number of ids below any bound, which is what gives each label its rank |
| `Labels.StrictlySortedUnique` | yas/src/ocr/yas_model/yas_ocr_model.rs:51 | only one strictly id-sorted arrangement of a given multiset of entries exists |
| `Labels.AlphabetOrderIndependent` | yas/src/ocr/yas_model/yas_ocr_model.rs:44-53 | two enumerations of the same (id, label) pairs with distinct ids give the same alphabet, whatever order the parsed object yields them in |
| `Labels.AlphabetExample` | yas/src/ocr/yas_model/yas_ocr_model.rs:44-53 | for any labels a, b, c, the file {"2": b, "0": a, "1": c} gives the alphabet a, c, b |
| `Decoder.MaxScoreBounds` | yas/src/ocr/yas_model/yas_ocr_model.rs:80-87 | the running maximum is at least every score scanned, and is either -1 or one of the scanned scores |
| `Decoder.BestIndex` | yas/src/ocr/yas_model/yas_ocr_model.rs:79-87 | the index the scan ends with is 0 or lies inside the scanned columns; the final running maximum is the score at that index if it beats -1, and -1 otherwise |
| `Decoder.BestIndexIsBest` | yas/src/ocr/yas_model/yas_ocr_model.rs:79-87 | the scan picks the lowest index holding the greatest of the first n scores, provided that score is above -1; otherwise it picks 0 |
| `Decoder.BestIndexUnique` | yas/src/ocr/yas_model/yas_ocr_model.rs:79-87 | the rule above determines a single index, so ties always resolve the same way |
| `Decoder.BestIndexIgnoresTail` | yas/src/ocr/yas_model/yas_ocr_model.rs:81-82 | scores at or beyond column n do not influence the pick |
| `Decoder.PickClass` | yas/src/ocr/yas_model/yas_ocr_model.rs:79-87 | the inner loop, with its running maximum starting at -1 and its strict comparison, returns the index the rule above determines |
| `Decoder.RunsOf` | yas/src/ocr/yas_model/yas_ocr_model.rs:88-93 | there are at most as many runs as timesteps, runs exist exactly when timesteps do, and the last run carries the last timestep's label |
| `Decoder.RunsOfMaximal` | yas/src/ocr/yas_model/yas_ocr_model.rs:88-93 | the runs are maximal (non-empty, neighbours with different labels) and expand back to the per-timestep labels |
| `Decoder.PushMaximal` | yas/src/ocr/yas_model/yas_ocr_model.rs:88-93 | one more timestep keeps the runs maximal and adds exactly its label to their expansion |
| `Decoder.MaximalRunsUnique` | yas/src/ocr/yas_model/yas_ocr_model.rs:88-93 | two maximal run sequences with the same expansion are equal, so the runs are the run-length decomposition and not one of several |
| `Decoder.NonBlankHeads` | yas/src/ocr/yas_model/yas_ocr_model.rs:89 | at most one label is kept per run |
| `Decoder.HeadsNotBlank` | yas/src/ocr/yas_model/yas_ocr_model.rs:89 | no kept label is the blank |
| `Decoder.TranscriptOfRuns` | yas/src/ocr/yas_model/yas_ocr_model.rs:88-93 | for any maximal runs, the transcript of their expansion joins the labels of the non-blank runs, whatever the run lengths: repeats collapse |
| `Decoder.TranscriptRepeat` | yas/src/ocr/yas_model/yas_ocr_model.rs:89 | a timestep repeating the previous timestep's label leaves the transcript unchanged |
| `Decoder.TranscriptNew` | yas/src/ocr/yas_model/yas_ocr_model.rs:89-91 | a timestep whose label differs from the previous one appends that label, unless it is the blank, which appends nothing |
| `Decoder.TranscriptSnoc` | yas/src/ocr/yas_model/yas_ocr_model.rs:88-93 | one more timestep extends the transcript by its label exactly when that label differs from the previous timestep's and is not the blank |
| `Decoder.DecodeStep` | yas/src/ocr/yas_model/yas_ocr_model.rs:88-93 | one loop step, comparing against the remembered label ("" before the first timestep) and appending or not, keeps the text equal to the transcript of the labels seen so far |
| `Decoder.GreedyDecode` | yas/src/ocr/yas_model/yas_ocr_model.rs:76-94 | the nested scan-and-append loops return exactly the transcript of the per-timestep picks |
| `Decoder.TranscriptBounded` | yas/src/ocr/yas_model/yas_ocr_model.rs:89-91 | at most one label is appended per timestep |
| `Decoder.AllBlankIsEmpty` | yas/src/ocr/yas_model/yas_ocr_model.rs:89 | timesteps that all pick the blank decode to the empty text |
| `Decoder.CollapseExample` | yas/src/ocr/yas_model/yas_ocr_model.rs:88-93 | for distinct non-blank labels a and b, the picks a, a, -, b, b, a decode to a + b + a |
| `Recognizer.Sum` | yas/src/ocr/yas_model/yas_ocr_model.rs:25-26 | the cumulative inference time is never negative |
| `Recognizer.OcrModel.constructor` | yas/src/ocr/yas_model/yas_ocr_model.rs:35-61 | the recognizer holds the network and the alphabet built from the label file, with zero invocations and zero time |
| `Recognizer.OcrModel.IncStatistics` | yas/src/ocr/yas_model/yas_ocr_model.rs:21-27 | the counter grows by exactly one and the total by the given time; the duration is appended to the history |
| `Recognizer.OcrModel.AverageInferenceTime` | yas/src/ocr/yas_model/yas_ocr_model.rs:29-33 | an average exists exactly when some inference was recorded, and it is the total divided by the count, i.e. the mean of the recorded durations |
| `Recognizer.OcrModel.InferenceString` | yas/src/ocr/yas_model/yas_ocr_model.rs:63-100 | the buffer must be at least 384×32, since every pixel of the input tensor is read from it; a network failure or clock failure is an error and leaves the statistics unchanged; otherwise the result is the decoded text, and exactly one inference of the elapsed duration is recorded; alphabet and network are constants |
| `Recognizer.OcrModel.ImageToTextRgb` | yas/src/ocr/yas_model/yas_ocr_model.rs:103-118 | a colour crop must not be flagged as preprocessed; a crop preprocessing finds uniform gives "" without inference or statistics change; otherwise the grey, normalised buffer goes to inference |
| `Recognizer.OcrModel.ImageToTextFloat` | yas/src/ocr/yas_model/yas_ocr_model.rs:120-137 | a preprocessed float crop goes straight to inference; otherwise a uniform crop gives "" with statistics unchanged and a non-uniform one's normalised buffer goes to inference |
| `Recognizer.OcrModel.ImageToTextGray` | yas/src/ocr/yas_model/yas_ocr_model.rs:139-144 | an integer grey crop behaves as the float crop it converts to |

## Left out

- Loading, optimising and running the ONNX network (yas_ocr_model.rs:36-40, 71-72) is a foreign inference engine. The network is a function from buffer to `Option<Scores>`; `None` covers both a failed run and an output that is not an f32 tensor.
- Building the [1, 1, 32, 384] input tensor from pixels (yas_ocr_model.rs:66-69) is not modelled. In the source, `get_pixel` is called for every x < 384 and y < 32, so a smaller buffer panics; the model's `Fits` therefore requires a buffer at least 384 wide and 32 high. A larger buffer is cut to its top-left 384×32 corner in the source; the model passes the whole buffer to the network function, which may depend only on that corner.
- JSON parsing of the label file is not modelled (yas_ocr_model.rs:42-48). The model starts from the parsed (id, label) entries. In the source, text that is not valid JSON makes `new` return an error (line 42); a top-level value that is not an object (line 46), a key that does not parse as a `usize` (not decimal, or above 2^64 − 1) or a value that is not a string (line 48) panics. None of these cases exists in the model, and an `Entry` id is a `nat` with no upper bound.
- Labels.SortByKey: the sort is stable like the source's `sort_by` (yas_ocr_model.rs:51), but stability itself is not proved. It matters only for entries whose ids parse equal, such as the keys "1", "01" and "+1".
- Labels.AlphabetOrderIndependent: assumes no two entries share an id, because distinct JSON keys can parse to the same id ("1", "01" and "+1").
- Labels.Alphabet: the rank statement (index i holds the label of the i-th smallest id) is proved only for distinct ids, for the same reason.
- Decoder.BestIndex: scores are reals, not f32. NaN scores, which never win a `>` comparison in the source, are not modelled.
- Recognizer.OcrModel.AverageInferenceTime: the f64 division 0.0 / 0.0 (NaN) before the first inference becomes `None`; f64 rounding is not modelled.
- Wall-clock timing (yas_ocr_model.rs:64, 96) is not modelled. Each inference receives its elapsed time, or the clock failure, as a parameter.
- The preprocessing bodies (`preprocess::to_gray`, `preprocess::pre_process`, `to_f32_gray_image`) are not part of this model. They are functions given to the constructor, and pixel values are not interpreted.
- The source's constructor returns an error when loading the network fails (yas_ocr_model.rs:36-40) or when the label file is not valid JSON (line 42). The model's constructor always succeeds.
- Recognizer.OcrModel.IncStatistics: `invokeCount` is a `nat`, while the source's counter is a `usize` (line 17) whose increment (line 23) panics or wraps at 2^64; and the running total is an exact real sum, while the source accumulates it in f64 (line 26) with rounding.
- The `RefCell` interior mutability (yas_ocr_model.rs:16-17) becomes plain mutable fields. The `yas_ocr_model!` macro that embeds the model and label files (yas_ocr_model.rs:146-155) is left out.
- Concurrent use of one recognizer is not modelled.
