/** Greedy decoding of the network's output.

    The network emits, for each of T timesteps, one score per class. At each
    timestep the decoder picks a class by a left-to-right scan over the first
    |alphabet| scores (strict comparison against a running maximum that starts
    at -1), then turns the per-timestep labels into text: a run of equal
    consecutive labels yields its label once, and runs of the blank label "-"
    yield nothing.
 */
module Decoder {

  /** scores[t][j] is the score of class j at timestep t (the [T, 1, C]
      tensor with its middle axis of size one dropped). */
  type Scores = seq<seq<real>>

  /** The label that stands for "nothing at this timestep". */
  const Blank: string := "-"

  /** The value the running maximum starts from. */
  const Sentinel: real := -1.0

  // ---------------------------------------------------------------------
  // Choosing a class at one timestep
  // ---------------------------------------------------------------------

  /** j is the class the scan over row[..n] must pick: the lowest index
      holding the greatest score, provided that score beats the sentinel;
      index 0 when no score does. */
  predicate IsBestIndex(row: seq<real>, n: nat, j: nat)
    requires n <= |row|
  {
    if exists k | 0 <= k < n :: row[k] > Sentinel then
      && j < n
      && row[j] > Sentinel
      && (forall k | 0 <= k < n :: row[k] <= row[j])
      && (forall k | 0 <= k < j :: row[k] < row[j])
    else
      j == 0
  }

  /** The running maximum after scanning row[..n]. */
  function MaxScore(row: seq<real>, n: nat): (m: real)
    requires n <= |row|
    ensures Sentinel <= m
  {
    if n == 0 then Sentinel
    else
      var m := MaxScore(row, n - 1);
      if row[n - 1] > m then row[n - 1] else m
  }

  /** The running maximum bounds every scanned score and is either the
      sentinel or one of them. */
  lemma {:induction false} MaxScoreBounds(row: seq<real>, n: nat)
    requires n <= |row|
    ensures forall k | 0 <= k < n :: row[k] <= MaxScore(row, n)
    ensures MaxScore(row, n) == Sentinel || exists k | 0 <= k < n :: row[k] == MaxScore(row, n)
  {
    if n > 0 {
      MaxScoreBounds(row, n - 1);
    }
  }

  /** The index the scan over row[..n] ends with. */
  function BestIndex(row: seq<real>, n: nat): (j: nat)
    requires n <= |row|
    ensures j == 0 || j < n
    ensures MaxScore(row, n) == if j < n && row[j] > Sentinel then row[j] else Sentinel
  {
    if n == 0 then 0
    else if row[n - 1] > MaxScore(row, n - 1) then n - 1
    else BestIndex(row, n - 1)
  }

  /** The scan picks the lowest index holding the greatest score, provided
      that score beats the sentinel, and index 0 otherwise. */
  lemma {:induction false} BestIndexIsBest(row: seq<real>, n: nat)
    requires n <= |row|
    ensures IsBestIndex(row, n, BestIndex(row, n))
  {
    if n > 0 {
      BestIndexIsBest(row, n - 1);
      MaxScoreBounds(row, n - 1);
      var j := BestIndex(row, n - 1);
      if row[n - 1] <= MaxScore(row, n - 1) {
        if exists k | 0 <= k < n :: row[k] > Sentinel {
          var k :| 0 <= k < n && row[k] > Sentinel;
          assert k < n - 1 || row[n - 1] > Sentinel;
        }
      }
    }
  }

  /** Only one index meets IsBestIndex. */
  lemma BestIndexUnique(row: seq<real>, n: nat, i: nat, j: nat)
    requires n <= |row|
    requires IsBestIndex(row, n, i) && IsBestIndex(row, n, j)
    ensures i == j
  {
  }

  /** The pick reads no score at or beyond column n. */
  lemma BestIndexIgnoresTail(row: seq<real>, other: seq<real>, n: nat)
    requires n <= |row| && n <= |other|
    requires row[..n] == other[..n]
    ensures BestIndex(row, n) == BestIndex(other, n)
  {
    var i, j := BestIndex(row, n), BestIndex(other, n);
    assert forall k | 0 <= k < n :: row[k] == other[k] by {
      forall k | 0 <= k < n ensures row[k] == other[k] {
        assert row[..n][k] == other[..n][k];
      }
    }
    BestIndexIsBest(row, n);
    BestIndexIsBest(other, n);
    assert IsBestIndex(row, n, j);
    BestIndexUnique(row, n, i, j);
  }

  /** Every timestep has a score for each label of the alphabet, and the
      alphabet is not empty when there is a timestep at all; otherwise the
      decoder indexes out of bounds. */
  predicate WellShaped(scores: Scores, alphabet: seq<string>) {
    forall t | 0 <= t < |scores| :: 0 < |alphabet| <= |scores[t]|
  }

  /** The label picked at each timestep. */
  function ChosenLabels(scores: Scores, alphabet: seq<string>): (labels: seq<string>)
    requires WellShaped(scores, alphabet)
  {
    seq(|scores|, t requires 0 <= t < |scores| => alphabet[BestIndex(scores[t], |alphabet|)])
  }

  // ---------------------------------------------------------------------
  // Maximal runs of equal labels
  // ---------------------------------------------------------------------

  // The run decomposition does not look inside labels, so it is stated for
  // any label type L; the decoder uses it with L = string.

  /** A run: one label repeated over consecutive timesteps. */
  datatype Run<L> = Run(symbol: L, length: nat)

  /** n copies of x. */
  function Repeat<L>(x: L, n: nat): (r: seq<L>)
    ensures |r| == n
  {
    if n == 0 then [] else Repeat(x, n - 1) + [x]
  }

  /** The per-timestep labels a sequence of runs stands for. */
  function Expand<L>(runs: seq<Run<L>>): (labels: seq<L>)
  {
    if runs == [] then []
    else
      var last := runs[|runs| - 1];
      Expand(runs[..|runs| - 1]) + Repeat(last.symbol, last.length)
  }

  /** Expanding one more run appends its labels. */
  lemma ExpandSnoc<L>(prefix: seq<Run<L>>, r: Run<L>)
    ensures Expand(prefix + [r]) == Expand(prefix) + Repeat(r.symbol, r.length)
  {
    assert (prefix + [r])[..|prefix|] == prefix;
  }

  /** Every run is non-empty and two neighbouring runs have different labels,
      so no run can be extended or merged. */
  predicate Maximal<L(==)>(runs: seq<Run<L>>) {
    && (forall i | 0 <= i < |runs| :: runs[i].length > 0)
    && (forall i | 0 < i < |runs| :: runs[i - 1].symbol != runs[i].symbol)
  }

  /** One more copy of the last run's label lengthens that run. */
  lemma ExtendRun<L>(prefix: seq<Run<L>>, last: Run<L>)
    requires Maximal(prefix + [last])
    ensures Maximal(prefix + [Run(last.symbol, last.length + 1)])
    ensures Expand(prefix + [Run(last.symbol, last.length + 1)]) == Expand(prefix + [last]) + [last.symbol]
  {
    var a, b := prefix + [last], prefix + [Run(last.symbol, last.length + 1)];
    forall i | 0 <= i < |b| ensures b[i].length > 0 {
      if i < |prefix| {
        assert b[i] == a[i];
      }
    }
    forall i | 0 < i < |b| ensures b[i - 1].symbol != b[i].symbol {
      assert b[i - 1] == a[i - 1];
      assert b[i].symbol == a[i].symbol;
    }
    ExpandSnoc(prefix, last);
    ExpandSnoc(prefix, Run(last.symbol, last.length + 1));
  }

  /** A label other than the last run's opens a new run, keeping the runs
      maximal. */
  lemma OpenRun<L>(init: seq<Run<L>>, x: L)
    requires Maximal(init)
    requires init == [] || init[|init| - 1].symbol != x
    ensures Maximal(init + [Run(x, 1)])
  {
    var runs := init + [Run(x, 1)];
    forall i | 0 <= i < |runs| ensures runs[i].length > 0 {
      if i < |init| {
        assert runs[i] == init[i];
      }
    }
    forall i | 0 < i < |runs| ensures runs[i - 1].symbol != runs[i].symbol {
      assert runs[i - 1] == init[i - 1];
    }
  }

  /** A new run of length one expands to one more label. */
  lemma ExpandOpen<L>(init: seq<Run<L>>, x: L)
    ensures Expand(init + [Run(x, 1)]) == Expand(init) + [x]
  {
    ExpandSnoc(init, Run(x, 1));
    assert Repeat(x, 1) == [x];
  }

  /** The runs after one more timestep with label x: a label equal to the
      last run's lengthens that run, any other label opens a new run. */
  function Push<L(==)>(runs: seq<Run<L>>, x: L): (r: seq<Run<L>>)
  {
    if runs != [] && runs[|runs| - 1].symbol == x then
      runs[..|runs| - 1] + [Run(x, runs[|runs| - 1].length + 1)]
    else
      runs + [Run(x, 1)]
  }

  /** The run-length decomposition of labels, built one timestep at a time. */
  function RunsOf<L(==)>(labels: seq<L>): (runs: seq<Run<L>>)
    ensures |runs| <= |labels|
    ensures labels != [] <==> runs != []
    ensures labels != [] ==> runs[|runs| - 1].symbol == labels[|labels| - 1]
  {
    if labels == [] then []
    else Push(RunsOf(labels[..|labels| - 1]), labels[|labels| - 1])
  }

  /** The runs of labels + [x] are those of labels with x pushed. */
  lemma RunsOfSnoc<L>(labels: seq<L>, x: L)
    ensures RunsOf(labels + [x]) == Push(RunsOf(labels), x)
  {
    assert (labels + [x])[..|labels|] == labels;
  }

  /** Pushing a label keeps runs maximal and expands to one more label. */
  lemma PushMaximal<L>(runs: seq<Run<L>>, x: L)
    requires Maximal(runs)
    ensures Maximal(Push(runs, x))
    ensures Expand(Push(runs, x)) == Expand(runs) + [x]
  {
    if runs != [] && runs[|runs| - 1].symbol == x {
      var last := runs[|runs| - 1];
      var prefix := runs[..|runs| - 1];
      assert runs == prefix + [last];
      ExtendRun(prefix, last);
    } else {
      OpenRun(runs, x);
      ExpandOpen(runs, x);
    }
  }

  /** RunsOf yields maximal runs that expand back to the labels. */
  lemma {:induction false} RunsOfMaximal<L>(labels: seq<L>)
    ensures Maximal(RunsOf(labels))
    ensures Expand(RunsOf(labels)) == labels
  {
    if labels != [] {
      var front := labels[..|labels| - 1];
      RunsOfMaximal(front);
      PushMaximal(RunsOf(front), labels[|labels| - 1]);
      assert labels == front + [labels[|labels| - 1]];
    }
  }

  /** Number of trailing entries of e equal to x. */
  function TrailingCount<L(==)>(e: seq<L>, x: L): nat
  {
    if e == [] || e[|e| - 1] != x then 0 else 1 + TrailingCount(e[..|e| - 1], x)
  }

  /** n copies of x after something that does not end in x end in exactly
      n copies of x. */
  lemma {:induction false} TrailingOfRepeat<L>(p: seq<L>, x: L, n: nat)
    requires p == [] || p[|p| - 1] != x
    ensures TrailingCount(p + Repeat(x, n), x) == n
  {
    if n == 0 {
      assert p + Repeat(x, 0) == p;
    } else {
      var q := p + Repeat(x, n - 1);
      assert p + Repeat(x, n) == q + [x];
      assert (q + [x])[..|q|] == q;
      TrailingOfRepeat(p, x, n - 1);
    }
  }

  /** Maximal runs that are not all absent stand for labels ending in the
      last run's label. */
  lemma LastOfExpand<L>(runs: seq<Run<L>>)
    requires Maximal(runs) && runs != []
    ensures |Expand(runs)| > 0 && Expand(runs)[|Expand(runs)| - 1] == runs[|runs| - 1].symbol
  {
  }

  /** Dropping the last run keeps runs maximal. */
  lemma MaximalInit<L>(a: seq<Run<L>>)
    requires Maximal(a) && a != []
    ensures Maximal(a[..|a| - 1])
  {
  }

  /** In maximal runs, the labels before the last run do not end in the last
      run's label. */
  lemma BeforeLastRun<L>(a: seq<Run<L>>)
    requires Maximal(a) && a != []
    ensures var e := Expand(a[..|a| - 1]);
      e == [] || e[|e| - 1] != a[|a| - 1].symbol
  {
    var ia := a[..|a| - 1];
    if ia != [] {
      MaximalInit(a);
      LastOfExpand(ia);
      assert ia[|ia| - 1] == a[|a| - 2];
    }
  }

  /** Maximal runs expand to the labels before the last run followed by
      exactly as many trailing copies of its label as its length. */
  lemma SplitLastRun<L>(a: seq<Run<L>>)
    requires Maximal(a) && a != []
    ensures var r := a[|a| - 1];
      && Expand(a) == Expand(a[..|a| - 1]) + Repeat(r.symbol, r.length)
      && Expand(a)[|Expand(a)| - 1] == r.symbol
      && TrailingCount(Expand(a), r.symbol) == r.length
  {
    var r, ia := a[|a| - 1], a[..|a| - 1];
    assert a == ia + [r];
    ExpandSnoc(ia, r);
    LastOfExpand(a);
    BeforeLastRun(a);
    TrailingOfRepeat(Expand(ia), r.symbol, r.length);
  }

  /** Two maximal run sequences with the same non-empty expansion end in the
      same run, and what comes before it expands to the same labels. */
  lemma LastRunDetermined<L>(a: seq<Run<L>>, b: seq<Run<L>>)
    requires Maximal(a) && Maximal(b) && a != [] && b != []
    requires Expand(a) == Expand(b)
    ensures a[|a| - 1] == b[|b| - 1]
    ensures Expand(a[..|a| - 1]) == Expand(b[..|b| - 1])
  {
    SplitLastRun(a);
    SplitLastRun(b);
    var ra, rb := a[|a| - 1], b[|b| - 1];
    var e := Expand(a);
    assert ra.symbol == rb.symbol;
    assert ra.length == rb.length;
    var ea, eb := Expand(a[..|a| - 1]), Expand(b[..|b| - 1]);
    assert ea == e[..|ea|];
    assert eb == e[..|eb|];
  }

  /** Sequences that agree on all but the last element and on the last
      element are equal. */
  lemma SameInitAndLast<T>(a: seq<T>, b: seq<T>)
    requires a != [] && b != []
    requires a[..|a| - 1] == b[..|b| - 1] && a[|a| - 1] == b[|b| - 1]
    ensures a == b
  {
    assert a == a[..|a| - 1] + [a[|a| - 1]];
    assert b == b[..|b| - 1] + [b[|b| - 1]];
  }

  /** The maximal runs of a sequence are unique: RunsOf is the run-length
      decomposition, not merely one of several. */
  lemma {:induction false} MaximalRunsUnique<L>(a: seq<Run<L>>, b: seq<Run<L>>)
    requires Maximal(a) && Maximal(b)
    requires Expand(a) == Expand(b)
    ensures a == b
  {
    if a != [] && b != [] {
      LastRunDetermined(a, b);
      MaximalInit(a);
      MaximalInit(b);
      MaximalRunsUnique(a[..|a| - 1], b[..|b| - 1]);
      SameInitAndLast(a, b);
    } else if a != [] {
      LastOfExpand(a);
    } else if b != [] {
      LastOfExpand(b);
    }
  }

  // ---------------------------------------------------------------------
  // The transcript
  // ---------------------------------------------------------------------

  /** The labels of the runs, leaving out runs of the blank. */
  function NonBlankHeads(runs: seq<Run<string>>): (heads: seq<string>)
    ensures |heads| <= |runs|
  {
    if runs == [] then []
    else
      var last := runs[|runs| - 1];
      var heads := NonBlankHeads(runs[..|runs| - 1]);
      if last.symbol == Blank then heads else heads + [last.symbol]
  }

  /** No kept label is the blank. */
  lemma {:induction false} HeadsNotBlank(runs: seq<Run<string>>)
    ensures forall i | 0 <= i < |NonBlankHeads(runs)| :: NonBlankHeads(runs)[i] != Blank
  {
    if runs != [] {
      HeadsNotBlank(runs[..|runs| - 1]);
    }
  }

  /** The strings of parts, joined in order. */
  function Concat(parts: seq<string>): (s: string)
  {
    if parts == [] then "" else Concat(parts[..|parts| - 1]) + parts[|parts| - 1]
  }

  /** The text a sequence of per-timestep labels decodes to: the label of each
      maximal run that is not a run of the blank, in timestep order. */
  function Transcript(labels: seq<string>): string {
    Concat(NonBlankHeads(RunsOf(labels)))
  }

  /** The text decoded from the network's scores. */
  function Decoded(scores: Scores, alphabet: seq<string>): string
    requires WellShaped(scores, alphabet)
  {
    Transcript(ChosenLabels(scores, alphabet))
  }

  /** One more run adds its label to the heads unless it is the blank. */
  lemma HeadsSnoc(init: seq<Run<string>>, r: Run<string>)
    ensures NonBlankHeads(init + [r]) ==
      NonBlankHeads(init) + (if r.symbol != Blank then [r.symbol] else [])
  {
    assert (init + [r])[..|init|] == init;
    assert NonBlankHeads(init) + [] == NonBlankHeads(init);
  }

  /** Lengthening the last run leaves the non-blank heads as they are. */
  lemma HeadsOfLonger(runs: seq<Run<string>>, x: string)
    requires runs != [] && runs[|runs| - 1].symbol == x
    ensures NonBlankHeads(Push(runs, x)) == NonBlankHeads(runs)
  {
    var r := Push(runs, x);
    assert r[..|r| - 1] == runs[..|runs| - 1];
  }

  /** Joining one more part appends it. */
  lemma ConcatSnoc(parts: seq<string>, p: string)
    ensures Concat(parts + [p]) == Concat(parts) + p
  {
    assert (parts + [p])[..|parts|] == parts;
  }

  /** A label equal to the previous timestep's leaves the transcript as it is. */
  lemma TranscriptRepeat(labels: seq<string>, x: string)
    requires labels != [] && labels[|labels| - 1] == x
    ensures Transcript(labels + [x]) == Transcript(labels)
  {
    RunsOfSnoc(labels, x);
    HeadsOfLonger(RunsOf(labels), x);
  }

  /** A label different from the previous timestep's extends the transcript
      by that label, unless it is the blank. */
  lemma TranscriptNew(labels: seq<string>, x: string)
    requires labels == [] || labels[|labels| - 1] != x
    ensures x != Blank ==> Transcript(labels + [x]) == Transcript(labels) + x
    ensures x == Blank ==> Transcript(labels + [x]) == Transcript(labels)
  {
    var runs := RunsOf(labels);
    var heads := NonBlankHeads(runs);
    RunsOfSnoc(labels, x);
    HeadsSnoc(runs, Run(x, 1));
    if x != Blank {
      ConcatSnoc(heads, x);
    } else {
      assert heads + [] == heads;
    }
  }

  /** Appending one timestep's label x extends the transcript by x exactly
      when x differs from the previous timestep's label and is not the blank. */
  lemma TranscriptSnoc(labels: seq<string>, x: string)
    ensures Transcript(labels + [x]) ==
      Transcript(labels) + (if (labels == [] || labels[|labels| - 1] != x) && x != Blank then x else "")
  {
    assert Transcript(labels) + "" == Transcript(labels);
    if labels != [] && labels[|labels| - 1] == x {
      TranscriptRepeat(labels, x);
    } else {
      TranscriptNew(labels, x);
    }
  }

  // ---------------------------------------------------------------------
  // The decoder
  // ---------------------------------------------------------------------

  /** The effect of timestep t of the decoder on its text and on the label
      it remembers, stated over the transcript of the labels up to t. */
  lemma DecodeStep(labels: seq<string>, t: nat, text: string, lastWord: string)
    requires t < |labels|
    requires text == Transcript(labels[..t])
    requires lastWord == if t == 0 then "" else labels[t - 1]
    ensures Transcript(labels[..t + 1]) ==
      if labels[t] != lastWord && labels[t] != Blank then text + labels[t] else text
  {
    var seen, x := labels[..t], labels[t];
    assert labels[..t + 1] == seen + [x];
    if t > 0 && lastWord == x {
      assert seen[|seen| - 1] == x;
      TranscriptRepeat(seen, x);
    } else {
      assert seen == [] || seen[|seen| - 1] != x;
      TranscriptNew(seen, x);
    }
  }

  /** The scan for one timestep's class: a strict comparison against a
      running maximum that starts at the sentinel, over row[..n]. */
  method PickClass(row: seq<real>, n: nat) returns (maxIndex: nat)
    requires n <= |row|
    ensures IsBestIndex(row, n, maxIndex)
    ensures maxIndex == BestIndex(row, n)
  {
    maxIndex := 0;
    var maxValue := Sentinel;
    for j := 0 to n
      invariant maxIndex == BestIndex(row, j)
      invariant maxValue == MaxScore(row, j)
    {
      if row[j] > maxValue {
        maxValue := row[j];
        maxIndex := j;
      }
    }
    BestIndexIsBest(row, n);
  }

  /** The greedy decoder: pick a class per timestep, then append its label
      unless it repeats the previous timestep's label or is the blank. */
  method GreedyDecode(scores: Scores, alphabet: seq<string>) returns (text: string)
    requires WellShaped(scores, alphabet)
    ensures text == Decoded(scores, alphabet)
  {
    ghost var labels := ChosenLabels(scores, alphabet);
    text := "";
    var lastWord := "";
    for t := 0 to |scores|
      invariant text == Transcript(labels[..t])
      invariant lastWord == if t == 0 then "" else labels[t - 1]
    {
      var maxIndex := PickClass(scores[t], |alphabet|);
      var word := alphabet[maxIndex];
      assert word == labels[t];
      DecodeStep(labels, t, text, lastWord);
      if word != lastWord && word != Blank {
        text := text + word;
      }
      lastWord := word;
    }
    assert labels[..|scores|] == labels;
  }

  // ---------------------------------------------------------------------
  // Properties of the transcript
  // ---------------------------------------------------------------------

  /** Stretching or shrinking runs, without emptying or merging them, does not
      change the transcript: repeats are collapsed whatever their length. */
  lemma TranscriptOfRuns(runs: seq<Run<string>>)
    requires Maximal(runs)
    ensures Transcript(Expand(runs)) == Concat(NonBlankHeads(runs))
  {
    RunsOfMaximal(Expand(runs));
    MaximalRunsUnique(RunsOf(Expand(runs)), runs);
  }

  /** At most one label is appended per timestep. */
  lemma TranscriptBounded(labels: seq<string>)
    ensures |NonBlankHeads(RunsOf(labels))| <= |labels|
  {
  }

  /** A sequence made only of blanks decodes to the empty text. */
  lemma {:induction false} AllBlankIsEmpty(labels: seq<string>)
    requires forall t | 0 <= t < |labels| :: labels[t] == Blank
    ensures Transcript(labels) == ""
  {
    if labels != [] {
      var init := labels[..|labels| - 1];
      AllBlankIsEmpty(init);
      assert labels == init + [Blank];
      TranscriptSnoc(init, Blank);
    }
  }

  /** The per-timestep labels a, a, -, b, b, a decode to a + b + a: repeats
      collapse, the blank vanishes, and a label reappears after another. */
  lemma CollapseExample(a: string, b: string)
    requires a != Blank && b != Blank && a != b
    ensures Transcript([a, a, Blank, b, b, a]) == a + b + a
  {
    var p0: seq<string> := [];
    var p1 := p0 + [a];
    var p2 := p1 + [a];
    var p3 := p2 + [Blank];
    var p4 := p3 + [b];
    var p5 := p4 + [b];
    var p6 := p5 + [a];
    assert p6 == [a, a, Blank, b, b, a];
    assert Transcript(p1) == a by {
      TranscriptSnoc(p0, a);
    }
    assert Transcript(p2) == a by {
      TranscriptSnoc(p1, a);
    }
    assert Transcript(p3) == a by {
      TranscriptSnoc(p2, Blank);
    }
    assert Transcript(p4) == a + b by {
      TranscriptSnoc(p3, b);
    }
    assert Transcript(p5) == a + b by {
      TranscriptSnoc(p4, b);
    }
    assert Transcript(p6) == a + b + a by {
      TranscriptSnoc(p5, a);
    }
  }
}
