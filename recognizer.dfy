/** The text recognizer: it owns the network, the label alphabet and the
    running inference statistics, and turns image crops into text.

    The network, the preprocessing stage and the clock are not modelled:
    the network and the preprocessing functions are given to the
    constructor as functions, and each call is told how long its inference
    took (or that the clock failed).
 */
module Recognizer {
  import opened Labels
  import opened Decoder

  datatype Option<T> = None | Some(value: T)

  /** The errors an inference can return to its caller. */
  datatype Error =
    | InferenceFailed  // the network could not run on the buffer, or its output was not a float tensor
    | ClockFailed      // the elapsed time could not be read

  datatype Outcome<T> = Ok(value: T) | Err(error: Error)

  /** A duration in seconds. */
  type Seconds = r: real | 0.0 <= r

  /** The three image representations the recognizer accepts. Pixel values
      are not interpreted here. */
  datatype RgbImage = RgbImage(width: nat, height: nat, pixels: seq<(int, int, int)>)
  datatype GrayImage = GrayImage(width: nat, height: nat, pixels: seq<int>)
  datatype FloatImage = FloatImage(width: nat, height: nat, pixels: seq<real>)

  /** The preprocessing stage: colour to grey, integer grey to float grey,
      and the normalisation that also tells whether the crop holds anything
      but one uniform colour. */
  datatype Preprocessing = Preprocessing(
    toGray: RgbImage -> FloatImage,
    toFloatGray: GrayImage -> FloatImage,
    preProcess: FloatImage -> (FloatImage, bool))

  /** The size of the network's input tensor: [1, 1, InputHeight, InputWidth]. */
  const InputWidth: nat := 384
  const InputHeight: nat := 32

  /** The sum of the recorded durations. */
  function Sum(times: seq<Seconds>): (total: real)
    ensures total >= 0.0
  {
    if times == [] then 0.0 else Sum(times[..|times| - 1]) + times[|times| - 1]
  }

  class OcrModel {
    /** The network: from a normalised buffer to the scores of its output,
        or None when running it fails. */
    const network: FloatImage -> Option<Scores>
    const pre: Preprocessing
    const alphabet: seq<string>

    var inferenceTime: real
    var invokeCount: nat

    /** The durations of the inferences recorded so far, oldest first. */
    ghost var history: seq<Seconds>

    /** The counter and the total agree with the recorded history. */
    ghost predicate Valid()
      reads this
    {
      invokeCount == |history| && inferenceTime == Sum(history)
    }

    /** buf covers the network's input tensor, whose every pixel is read
        from it, and the network's output for buf can be decoded without
        indexing out of bounds (otherwise the source panics). */
    predicate Fits(buf: FloatImage) {
      && InputWidth <= buf.width && InputHeight <= buf.height
      && (network(buf).Some? ==> WellShaped(network(buf).value, alphabet))
    }

    constructor (network: FloatImage -> Option<Scores>, pre: Preprocessing, entries: seq<Entry>)
      ensures this.network == network && this.pre == pre
      ensures alphabet == Alphabet(entries)
      ensures Valid() && history == []
      ensures invokeCount == 0 && inferenceTime == 0.0
    {
      this.network := network;
      this.pre := pre;
      this.alphabet := Alphabet(entries);
      inferenceTime := 0.0;
      invokeCount := 0;
      history := [];
    }

    /** Records one inference that took the given time. */
    method IncStatistics(time: Seconds)
      requires Valid()
      modifies this
      ensures Valid()
      ensures history == old(history) + [time]
      ensures invokeCount == old(invokeCount) + 1
      ensures inferenceTime == old(inferenceTime) + time
    {
      invokeCount := invokeCount + 1;
      inferenceTime := inferenceTime + time;
      history := history + [time];
      assert history[..|history| - 1] == old(history);
    }

    /** The mean duration of the recorded inferences; None before the first
        one, where the source divides zero by zero. */
    function AverageInferenceTime(): (avg: Option<real>)
      reads this
      requires Valid()
      ensures avg.Some? <==> invokeCount > 0
      ensures avg.Some? ==> avg.value * (invokeCount as real) == inferenceTime
      ensures avg.Some? ==> avg.value * (|history| as real) == Sum(history)
    {
      if invokeCount == 0 then None else Some(inferenceTime / invokeCount as real)
    }

    /** What an inference on buf returns, given the clock reading. */
    function InferenceResult(buf: FloatImage, elapsed: Option<Seconds>): Outcome<string>
      requires Fits(buf)
    {
      match network(buf)
      case None => Err(InferenceFailed)
      case Some(scores) =>
        if elapsed.None? then Err(ClockFailed) else Ok(Decoded(scores, alphabet))
    }

    /** Runs the network on buf and decodes its output; a successful call
        records its duration. */
    method InferenceString(buf: FloatImage, elapsed: Option<Seconds>) returns (r: Outcome<string>)
      requires Valid() && Fits(buf)
      modifies this
      ensures Valid()
      ensures r == InferenceResult(buf, elapsed)
      ensures r.Ok? ==> history == old(history) + [elapsed.value] && invokeCount == old(invokeCount) + 1
      ensures r.Err? ==> history == old(history) && invokeCount == old(invokeCount)
      ensures inferenceTime == old(inferenceTime) + (if r.Ok? then elapsed.value else 0.0)
    {
      var output := network(buf);
      if output.None? {
        return Err(InferenceFailed);
      }
      var text := GreedyDecode(output.value, alphabet);
      if elapsed.None? {
        return Err(ClockFailed);
      }
      IncStatistics(elapsed.value);
      r := Ok(text);
    }

    /** The buffer a float image reaches inference with, or None when
        preprocessing finds it uniform. */
    function FloatBuffer(image: FloatImage, isPreprocessed: bool): Option<FloatImage> {
      if isPreprocessed then Some(image)
      else
        var (buf, nonMono) := pre.preProcess(image);
        if nonMono then Some(buf) else None
    }

    /** The buffer a colour image reaches inference with, or None when
        preprocessing finds it uniform. */
    function RgbBuffer(image: RgbImage): Option<FloatImage> {
      var (buf, nonMono) := pre.preProcess(pre.toGray(image));
      if nonMono then Some(buf) else None
    }

    /** The buffer reaching inference, if any, fits the network's output. */
    predicate FitsIfAny(buf: Option<FloatImage>) {
      buf.Some? ==> Fits(buf.value)
    }

    /** Recognises the text in a colour crop, which is never passed already
        preprocessed. */
    method ImageToTextRgb(image: RgbImage, isPreprocessed: bool, elapsed: Option<Seconds>) returns (r: Outcome<string>)
      requires !isPreprocessed
      requires Valid() && FitsIfAny(RgbBuffer(image))
      modifies this
      ensures Valid()
      ensures RgbBuffer(image).None? ==> r == Ok("") && history == old(history)
      ensures RgbBuffer(image).Some? ==> r == InferenceResult(RgbBuffer(image).value, elapsed)
      ensures history == if r.Ok? && RgbBuffer(image).Some? then old(history) + [elapsed.value] else old(history)
    {
      var gray := pre.toGray(image);
      var (buf, nonMono) := pre.preProcess(gray);
      if !nonMono {
        return Ok("");
      }
      r := InferenceString(buf, elapsed);
    }

    /** Recognises the text in a float grey crop; one already preprocessed
        goes straight to inference. */
    method ImageToTextFloat(image: FloatImage, isPreprocessed: bool, elapsed: Option<Seconds>) returns (r: Outcome<string>)
      requires Valid() && FitsIfAny(FloatBuffer(image, isPreprocessed))
      modifies this
      ensures Valid()
      ensures FloatBuffer(image, isPreprocessed).None? ==> r == Ok("") && history == old(history)
      ensures FloatBuffer(image, isPreprocessed).Some? ==>
        r == InferenceResult(FloatBuffer(image, isPreprocessed).value, elapsed)
      ensures history ==
        if r.Ok? && FloatBuffer(image, isPreprocessed).Some? then old(history) + [elapsed.value] else old(history)
    {
      if isPreprocessed {
        r := InferenceString(image, elapsed);
      } else {
        var (buf, nonMono) := pre.preProcess(image);
        if !nonMono {
          return Ok("");
        }
        r := InferenceString(buf, elapsed);
      }
    }

    /** Recognises the text in an integer grey crop by converting it to a
        float grey crop first. */
    method ImageToTextGray(image: GrayImage, isPreprocessed: bool, elapsed: Option<Seconds>) returns (r: Outcome<string>)
      requires Valid() && FitsIfAny(FloatBuffer(pre.toFloatGray(image), isPreprocessed))
      modifies this
      ensures Valid()
      ensures var buf := FloatBuffer(pre.toFloatGray(image), isPreprocessed);
        && (buf.None? ==> r == Ok("") && history == old(history))
        && (buf.Some? ==> r == InferenceResult(buf.value, elapsed))
        && history == if r.Ok? && buf.Some? then old(history) + [elapsed.value] else old(history)
    {
      r := ImageToTextFloat(pre.toFloatGray(image), isPreprocessed, elapsed);
    }
  }
}
