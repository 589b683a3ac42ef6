/**
 * How the pipeline learns a video's frame count and turns it into a sampling
 * step: the digit check on a probe's output, the ordered fallback chain of
 * `get_total_frames`, and the stride expression of `main`.
 */
module FrameCount {
  import opened Wrappers
  import opened PyText

  /**
   * One ffprobe stage that prints a frame count: its output, stripped, is
   * taken only when `isdigit()` holds and `int(...)` of it is positive;
   * otherwise the next stage is tried.
   */
  function ProbeStage(output: string): (r: Option<int>)
    ensures r.Some? ==> r.value > 0
  {
    var s := Strip(output);
    if IsDigitString(s) && ParseDecimal(s) > 0 then Some(ParseDecimal(s)) else None
  }

  /** A stage succeeds exactly when its stripped output is a digit string with a digit other than `0`. */
  lemma ProbeStageAcceptsIff(output: string)
    ensures var s := Strip(output);
      ProbeStage(output).Some? <==> IsDigitString(s) && exists i :: 0 <= i < |s| && s[i] != '0'
    ensures ProbeStage(output).Some? ==> ProbeStage(output).value > 0
  {
    var s := Strip(output);
    if AllDigits(s) {
      ParseDecimalPositive(s);
    }
  }

  /** A positive count printed with surrounding whitespace (ffprobe ends its output with a newline) is read back exactly. */
  lemma ProbeStageReadsCount(pre: string, n: nat, post: string)
    requires AllSpace(pre) && AllSpace(post)
    requires n > 0
    ensures ProbeStage(pre + NatToString(n) + post) == Some(n)
  {
    var t := NatToString(n);
    StripPadded(pre, t, post);
    ParseNatToString(n);
  }

  /** `"0"`, `"000"` and the like fall through to the next stage. */
  lemma ProbeStageRejectsZeros(pre: string, zeros: string, post: string)
    requires AllSpace(pre) && AllSpace(post)
    requires forall i :: 0 <= i < |zeros| ==> zeros[i] == '0'
    ensures ProbeStage(pre + zeros + post) == None
  {
    if zeros != [] {
      StripPadded(pre, zeros, post);
      ParseDecimalPositive(zeros);
    } else {
      assert pre + zeros + post == pre + post;
      ProbeStageAcceptsIff(pre + post);
    }
  }

  /** The first stage that yields a value wins; `None` when every stage fails. */
  function FirstSome(stages: seq<Option<int>>): (r: Option<int>)
    ensures r.Some? ==> r in stages
  {
    if stages == [] then None
    else if stages[0].Some? then stages[0]
    else FirstSome(stages[1..])
  }

  lemma {:induction false} FirstSomeIff(stages: seq<Option<int>>, v: int)
    ensures FirstSome(stages) == Some(v) <==>
      exists i :: 0 <= i < |stages| && stages[i] == Some(v) && forall j :: 0 <= j < i ==> stages[j].None?
  {
    if stages != [] {
      FirstSomeIff(stages[1..], v);
      if FirstSome(stages) == Some(v) && stages[0].None? {
        var i :| 0 <= i < |stages[1..]| && stages[1..][i] == Some(v) && forall j :: 0 <= j < i ==> stages[1..][j].None?;
        assert stages[i + 1] == Some(v);
      }
      if exists i :: 0 <= i < |stages| && stages[i] == Some(v) && forall j :: 0 <= j < i ==> stages[j].None? {
        var i :| 0 <= i < |stages| && stages[i] == Some(v) && forall j :: 0 <= j < i ==> stages[j].None?;
        if i > 0 {
          assert stages[1..][i - 1] == Some(v);
        }
      }
    }
  }

  lemma {:induction false} FirstSomeNone(stages: seq<Option<int>>)
    ensures FirstSome(stages).None? <==> forall i :: 0 <= i < |stages| ==> stages[i].None?
  {
    if stages != [] {
      FirstSomeNone(stages[1..]);
      assert forall i :: 1 <= i < |stages| ==> stages[i] == stages[1..][i - 1];
    }
  }

  /**
   * `get_total_frames`: the decode-and-count probe, then the stream's own
   * frame-count field, then the duration-times-rate estimate. The probes'
   * outputs are inputs here; the third stage (float parsing and `int(...)`
   * of a float product) is given as its outcome, `None` when it raised.
   */
  function GetTotalFrames(countedOutput: string, reportedOutput: string, fromDuration: Option<int>): (r: Option<int>)
    ensures r.Some? ==> r == ProbeStage(countedOutput) || r == ProbeStage(reportedOutput) || r == fromDuration
  {
    var r := FirstSome([ProbeStage(countedOutput), ProbeStage(reportedOutput), fromDuration]);
    InThree(r, ProbeStage(countedOutput), ProbeStage(reportedOutput), fromDuration);
    r
  }

  lemma InThree<T>(x: T, a: T, b: T, c: T)
    requires x in [a, b, c]
    ensures x == a || x == b || x == c
  {
  }

  /** Which stage decides the count, and that only the third can yield a value that is not positive. */
  lemma GetTotalFramesChain(countedOutput: string, reportedOutput: string, fromDuration: Option<int>)
    ensures var r := GetTotalFrames(countedOutput, reportedOutput, fromDuration);
      && (ProbeStage(countedOutput).Some? ==> r == ProbeStage(countedOutput))
      && (ProbeStage(countedOutput).None? && ProbeStage(reportedOutput).Some? ==> r == ProbeStage(reportedOutput))
      && (ProbeStage(countedOutput).None? && ProbeStage(reportedOutput).None? ==> r == fromDuration)
      && (r.None? <==> ProbeStage(countedOutput).None? && ProbeStage(reportedOutput).None? && fromDuration.None?)
      && (r.Some? && r.value <= 0 ==> r == fromDuration)
  {
    var stages := [ProbeStage(countedOutput), ProbeStage(reportedOutput), fromDuration];
    FirstSomeNone(stages);
    assert stages[1..] == [ProbeStage(reportedOutput), fromDuration];
    assert stages[1..][1..] == [fromDuration];
    assert [fromDuration][1..] == [];
    assert FirstSome([fromDuration]) == fromDuration;
    ProbeStageAcceptsIff(countedOutput);
    ProbeStageAcceptsIff(reportedOutput);
  }

  /**
   * The sampling step of `main`: `max(1, total_frames // target_frames)`.
   * The prompt accepts only a positive target; for a positive divisor
   * Dafny's `/` is Python's floor division.
   */
  function Stride(totalFrames: int, targetFrames: int): (step: int)
    requires targetFrames > 0
    ensures step >= 1
  {
    var q := totalFrames / targetFrames;
    if q > 1 then q else 1
  }

  /** With at least as many frames as wanted, `target` steps fit in the video and one more does not; otherwise every frame is kept. */
  lemma StrideBounds(totalFrames: int, targetFrames: int)
    requires targetFrames > 0
    ensures var step := Stride(totalFrames, targetFrames);
      && (totalFrames >= targetFrames ==> step * targetFrames <= totalFrames < (step + 1) * targetFrames)
      && (totalFrames < targetFrames ==> step == 1)
  {
    var q := totalFrames / targetFrames;
    var r := totalFrames % targetFrames;
    assert totalFrames == q * targetFrames + r && 0 <= r < targetFrames;
    if totalFrames >= targetFrames {
      assert q >= 1;
      assert (q + 1) * targetFrames == q * targetFrames + targetFrames;
    } else if totalFrames >= 0 {
      assert q == 0;
    } else {
      assert q < 0;
    }
  }
}
