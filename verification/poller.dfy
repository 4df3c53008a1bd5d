/** One iteration of `ClipboardHandler._monitor_loop` as a pure step function,
    and the safe initial read `_get_initial_clipboard`. The clipboard library,
    threads and sleeping are outside: each iteration's read is an input. */
module Poller {
  import opened Wrappers

  /** What `clipboard.paste()` handed back when it returned normally. */
  datatype Clip = Text(s: string) | NonText

  /** The outcome of one `clipboard.paste()` call as `_get_initial_clipboard`
      sees it: a value, or an exception of any kind. */
  datatype Paste = Returned(value: Clip) | Raised

  /** The outcome of the read at the top of one loop iteration. `OtherError`
      carries the outcome of the re-fetch the handler then performs. */
  datatype Sample =
    | Got(value: Clip)
    | ClipboardEmpty
    | OtherError(refetch: Paste)

  /** The handler's `recent_value` after an iteration, and the content handed
      to the processing callback, if any. */
  datatype StepResult = StepResult(recent: string, event: Option<string>)

  /** `_get_initial_clipboard`: the pasted text, or "" for a non-text value or
      a failed paste. */
  function InitialValue(p: Paste): (r: string)
    ensures p.Returned? && p.value.Text? ==> r == p.value.s
    ensures !(p.Returned? && p.value.Text?) ==> r == ""
  {
    match p
    case Returned(Text(s)) => s
    case _ => ""
  }

  /** One loop iteration, given `recent_value` before it. */
  function Step(recent: string, sample: Sample): (r: StepResult)
    ensures r.event.Some? <==> sample.Got? && sample.value.Text? && sample.value.s != "" && sample.value.s != recent
    ensures r.event.Some? ==> r.event.value == sample.value.s && r.recent == sample.value.s
    ensures sample.Got? && r.event.None? ==> r.recent == recent
    ensures sample.ClipboardEmpty? ==> r.recent == ""
    ensures sample.OtherError? ==> r.recent == InitialValue(sample.refetch)
  {
    match sample
    case Got(NonText) => StepResult(recent, None)
    case Got(Text(s)) =>
      if s != recent && s != "" then StepResult(s, Some(s)) else StepResult(recent, None)
    case ClipboardEmpty => StepResult(if recent != "" then "" else recent, None)
    case OtherError(refetch) => StepResult(InitialValue(refetch), None)
  }

  /** Reading the same thing twice in a row never produces a second event, and
      the second iteration leaves `recent_value` where the first put it. */
  lemma RepeatedSampleSilent(recent: string, sample: Sample)
    ensures Step(Step(recent, sample).recent, sample).event.None?
    ensures Step(Step(recent, sample).recent, sample).recent == Step(recent, sample).recent
  {
  }

  /** The state after a sequence of iterations, with the events in order. */
  datatype Trace = Trace(recent: string, events: seq<string>)

  /** The loop run over `samples`, oldest first, starting from `recent`. */
  function Run(recent: string, samples: seq<Sample>): (t: Trace)
    ensures |t.events| <= |samples|
    ensures forall k :: 0 <= k < |t.events| ==> t.events[k] != ""
  {
    if |samples| == 0 then Trace(recent, [])
    else
      var before := Run(recent, samples[..|samples| - 1]);
      var step := Step(before.recent, samples[|samples| - 1]);
      Trace(step.recent, before.events + (if step.event.Some? then [step.event.value] else []))
  }

  /** While the clipboard only ever returns values (no errors), the loop never
      reports the same content twice in a row, and `recent_value` is the last
      content reported. */
  lemma {:induction false} ValueReadsNeverRepeat(recent: string, samples: seq<Sample>)
    requires forall k :: 0 <= k < |samples| ==> samples[k].Got?
    ensures var t := Run(recent, samples);
      && (|t.events| > 0 ==> t.recent == t.events[|t.events| - 1])
      && (|t.events| > 0 ==> t.events[0] != recent)
      && forall k :: 0 < k < |t.events| ==> t.events[k] != t.events[k - 1]
  {
    if |samples| > 0 {
      var init := samples[..|samples| - 1];
      ValueReadsNeverRepeat(recent, init);
      var before := Run(recent, init);
      if |before.events| == 0 {
        ValueReadsKeepRecent(recent, init);
      }
    }
  }

  /** Value reads that report nothing leave `recent_value` as it was. */
  lemma {:induction false} ValueReadsKeepRecent(recent: string, samples: seq<Sample>)
    requires forall k :: 0 <= k < |samples| ==> samples[k].Got?
    requires |Run(recent, samples).events| == 0
    ensures Run(recent, samples).recent == recent
  {
    if |samples| > 0 {
      ValueReadsKeepRecent(recent, samples[..|samples| - 1]);
    }
  }
}
