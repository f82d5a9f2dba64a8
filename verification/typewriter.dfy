/**
  The code editor's typewriter: a 50 ms interval types the current snippet one
  character at a time. When the snippet is finished, a 3000 ms timeout switches to the
  next snippet, and a 500 ms delayed start begins typing it. Hiding the page pauses
  typing and showing it again resumes.

  JavaScript runs one callback at a time, so every timer callback is one discrete
  event on an immutable `Editor` record. A timer that is set is a value in the record
  holding what its closure captured. The durations are not modelled, only which
  callbacks can run.
*/
module Typewriter {
  import opened Options

  /** The typing interval, with the snippet index and code its closure captured. */
  datatype Interval = NoInterval | Typing(snippet: nat, code: string)

  /** The 3000 ms snippet-switch timeout, with the snippet index it captured. */
  datatype Timeout = NoTimeout | Switching(snippet: nat)

  /**
    `current` is the React state `currentSnippet`. `index`, `text`, `paused`,
    `interval` and `timeout` are the fields of the `animationState` ref. `restart` is
    the pending delayed call `typeCode(k)`: the 1500 ms start after mount, or the
    500 ms start after a switch.
  */
  datatype Editor = Editor(
    current: nat,
    index: nat,
    text: string,
    paused: bool,
    interval: Interval,
    timeout: Timeout,
    restart: Option<nat>)

  datatype Event =
    | RestartFires        // the pending delayed `typeCode(k)` runs
    | Tick(mounted: bool) // the typing interval runs; `mounted` is whether the <pre> still exists
    | TimeoutFires        // the snippet-switch timeout runs
    | Hide                // `visibilitychange` with `document.hidden`
    | Show                // `visibilitychange` with the page visible

  /** State after mount. The mount effect has scheduled `typeCode()` for snippet 0. */
  const Init: Editor := Editor(0, 0, "", false, NoInterval, NoTimeout, Some(0))

  /** `typeCode(k)`: start an interval typing snippet `k`, unless paused or already typing.
      An index outside the snippet list makes `snippet.code` throw before any field
      is written, so the state is then left as it was. */
  function TypeCode(snippets: seq<string>, s: Editor, k: nat): (r: Editor)
    ensures s.paused || s.interval.Typing? || k >= |snippets| ==> r == s
    ensures !s.paused && s.interval.NoInterval? && k < |snippets| ==>
      && r.interval == Typing(k, snippets[k])
      && r.index == s.index
      && r.text == (if s.index == 0 then "" else s.text)
      && r.(interval := s.interval, text := s.text) == s
  {
    if s.paused || s.interval.Typing? then s
    else if k >= |snippets| then s
    else s.(text := if s.index == 0 then "" else s.text, interval := Typing(k, snippets[k]))
  }

  /** One run of the typing interval. */
  function OnTick(s: Editor, mounted: bool): (r: Editor)
    ensures s.interval.NoInterval? ==> r == s
    ensures s.interval.Typing? && (s.paused || !mounted) ==>
      r.interval.NoInterval? && r.index == s.index && r.text == s.text && r.timeout == s.timeout
    ensures s.interval.Typing? && !s.paused && mounted && s.index < |s.interval.code| ==>
      r.text == s.text + [s.interval.code[s.index]] && r.index == s.index + 1 && r.interval == s.interval
      && r.timeout == s.timeout
    ensures s.interval.Typing? && !s.paused && mounted && s.index >= |s.interval.code| ==>
      r.interval.NoInterval? && r.timeout == Switching(s.interval.snippet) && r.text == s.text
      && r.index == s.index
    ensures r.current == s.current && r.paused == s.paused && r.restart == s.restart
  {
    match s.interval
    case NoInterval => s
    case Typing(k, code) =>
      if s.paused || !mounted then s.(interval := NoInterval)
      else if s.index < |code| then s.(text := s.text + [code[s.index]], index := s.index + 1)
      else s.(interval := NoInterval, timeout := Switching(k))
  }

  /** The effect that runs whenever `currentSnippet` changes: clear the text and stop
      any interval. */
  function SnippetEffect(s: Editor): (r: Editor)
    ensures r.text == "" && r.index == 0 && r.interval.NoInterval?
    ensures r.current == s.current && r.paused == s.paused && r.timeout == s.timeout && r.restart == s.restart
  {
    s.(text := "", index := 0, interval := NoInterval)
  }

  /** The snippet-switch timeout: clear the text, move to the next snippet cyclically,
      and schedule the delayed start of that snippet. React runs the snippet effect
      after the change of `currentSnippet`; it is applied here as part of the same step. */
  function OnTimeout(snippets: seq<string>, s: Editor): (r: Editor)
    requires |snippets| > 0
    ensures s.timeout.NoTimeout? ==> r == s
    ensures s.timeout.Switching? ==>
      && r.current == (s.timeout.snippet + 1) % |snippets|
      && r.current < |snippets|
      && r.text == "" && r.index == 0
      && r.timeout.NoTimeout?
      && r.restart == Some(r.current)
      && r.paused == s.paused
      && (r.current != s.current ==> r.interval.NoInterval?)
      && (r.current == s.current ==> r.interval == s.interval)
  {
    match s.timeout
    case NoTimeout => s
    case Switching(k) =>
      var next := (k + 1) % |snippets|;
      var switched := s.(text := "", index := 0, current := next, timeout := NoTimeout, restart := Some(next));
      if next != s.current then SnippetEffect(switched) else switched
  }

  /** The `visibilitychange` handler. `resume` is the snippet `typeCode()` falls back
      to when the page becomes visible again. */
  function OnVisibility(snippets: seq<string>, s: Editor, hidden: bool, resume: nat): (r: Editor)
    ensures hidden ==>
      && r.paused && r.interval.NoInterval? && r.timeout.NoTimeout?
      && r.index == s.index && r.text == s.text && r.current == s.current && r.restart == s.restart
    ensures !hidden && !s.paused ==> r == s
    ensures !hidden && s.paused ==>
      && !r.paused && r.index == s.index && r.current == s.current
      && r.timeout == s.timeout && r.restart == s.restart
    ensures !hidden && s.paused && s.interval.NoInterval? && resume < |snippets| ==>
      && r.interval == Typing(resume, snippets[resume])
      && r.text == (if s.index == 0 then "" else s.text)
    ensures !hidden && s.paused && (s.interval.Typing? || resume >= |snippets|) ==>
      r == s.(paused := false)
  {
    if hidden then s.(paused := true, interval := NoInterval, timeout := NoTimeout)
    else if s.paused then TypeCode(snippets, s.(paused := false), resume)
    else s
  }

  /** The pending delayed start runs: the 1500 ms start after mount, or the 500 ms
      start after a switch. It is consumed, and typing of its snippet begins only
      when the editor is not paused, no interval runs and the snippet exists. */
  function OnRestart(snippets: seq<string>, s: Editor): (r: Editor)
    ensures s.restart.None? ==> r == s
    ensures r.restart.None?
    ensures s.restart.Some? && !s.paused && s.interval.NoInterval? && s.restart.value < |snippets| ==>
      && r.interval == Typing(s.restart.value, snippets[s.restart.value])
      && r.index == s.index
      && r.text == (if s.index == 0 then "" else s.text)
      && r.current == s.current && r.paused == s.paused && r.timeout == s.timeout
    ensures s.restart.Some? && (s.paused || s.interval.Typing? || s.restart.value >= |snippets|) ==>
      r == s.(restart := None)
  {
    match s.restart
    case None => s
    case Some(k) => TypeCode(snippets, s.(restart := None), k)
  }

  /** One event, with the snippet used on resume given explicitly. */
  function StepWith(snippets: seq<string>, s: Editor, e: Event, resume: nat): Editor
    requires |snippets| > 0
  {
    match e
    case RestartFires => OnRestart(snippets, s)
    case Tick(mounted) => OnTick(s, mounted)
    case TimeoutFires => OnTimeout(snippets, s)
    case Hide => OnVisibility(snippets, s, true, resume)
    case Show => OnVisibility(snippets, s, false, resume)
  }

  /** The editor as written. The visibility listener is registered once, so its
      `typeCode()` resumes with the snippet index of the first render, which is 0. */
  function StepAsWritten(snippets: seq<string>, s: Editor, e: Event): Editor
    requires |snippets| > 0
  {
    StepWith(snippets, s, e, 0)
  }

  /** The editor as intended: typing resumes the snippet that is current. */
  function Step(snippets: seq<string>, s: Editor, e: Event): Editor
    requires |snippets| > 0
  {
    StepWith(snippets, s, e, s.current)
  }

  function Run(snippets: seq<string>, s: Editor, events: seq<Event>): Editor
    requires |snippets| > 0
    decreases |events|
  {
    if |events| == 0 then s else Run(snippets, Step(snippets, s, events[0]), events[1..])
  }

  function RunAsWritten(snippets: seq<string>, s: Editor, events: seq<Event>): Editor
    requires |snippets| > 0
    decreases |events|
  {
    if |events| == 0 then s else RunAsWritten(snippets, StepAsWritten(snippets, s, events[0]), events[1..])
  }

  /** What the editor shows is always a prefix of the current snippet, and every
      pending timer refers to the current snippet. */
  ghost predicate Inv(snippets: seq<string>, s: Editor) {
    && |snippets| > 0
    && s.current < |snippets|
    && s.index <= |snippets[s.current]|
    && s.text == snippets[s.current][..s.index]
    && (s.interval.Typing? ==> s.interval.snippet == s.current && s.interval.code == snippets[s.current])
    && (s.timeout.Switching? ==> s.timeout.snippet == s.current)
    && (s.restart.Some? ==> s.restart.value == s.current)
  }

  lemma InitInv(snippets: seq<string>)
    requires |snippets| > 0
    ensures Inv(snippets, Init)
  {
  }

  lemma TypeCodeCurrentInv(snippets: seq<string>, s: Editor)
    requires Inv(snippets, s)
    ensures Inv(snippets, TypeCode(snippets, s, s.current))
  {
  }

  lemma TickInv(snippets: seq<string>, s: Editor, mounted: bool)
    requires Inv(snippets, s)
    ensures Inv(snippets, OnTick(s, mounted))
  {
    if s.interval.Typing? && !s.paused && mounted && s.index < |s.interval.code| {
      var code := snippets[s.current];
      assert code[..s.index + 1] == code[..s.index] + [code[s.index]];
    }
  }

  /** Every event of the intended editor keeps the invariant. */
  lemma StepPreservesInv(snippets: seq<string>, s: Editor, e: Event)
    requires Inv(snippets, s)
    ensures Inv(snippets, Step(snippets, s, e))
  {
    match e
    case RestartFires =>
      if s.restart.Some? {
        TypeCodeCurrentInv(snippets, s.(restart := None));
      }
    case Tick(mounted) => TickInv(snippets, s, mounted);
    case TimeoutFires =>
    case Hide =>
    case Show =>
      if s.paused {
        TypeCodeCurrentInv(snippets, s.(paused := false));
      }
  }

  /** From the initial state, every sequence of events keeps the invariant. */
  lemma {:induction false} RunPreservesInv(snippets: seq<string>, s: Editor, events: seq<Event>)
    requires Inv(snippets, s)
    ensures Inv(snippets, Run(snippets, s, events))
    decreases |events|
  {
    if |events| > 0 {
      StepPreservesInv(snippets, s, events[0]);
      RunPreservesInv(snippets, Step(snippets, s, events[0]), events[1..]);
    }
  }

  function Ticks(n: nat): (r: seq<Event>)
    ensures |r| == n && forall k | 0 <= k < n :: r[k] == Tick(true)
  {
    if n == 0 then [] else [Tick(true)] + Ticks(n - 1)
  }

  /** Once typing runs, uninterrupted ticks type the whole current snippet, one
      character each, and one further tick schedules the switch. */
  lemma {:induction false} TypesWholeSnippet(snippets: seq<string>, s: Editor)
    requires Inv(snippets, s) && s.interval.Typing? && !s.paused
    ensures var r := Run(snippets, s, Ticks(|snippets[s.current]| - s.index));
      && r.text == snippets[s.current] && r.index == |snippets[s.current]|
      && r.interval == s.interval && r.current == s.current
    ensures var r := Run(snippets, s, Ticks(|snippets[s.current]| - s.index + 1));
      && r.text == snippets[s.current] && r.interval.NoInterval?
      && r.timeout == Switching(s.current)
    decreases |snippets[s.current]| - s.index
  {
    var code := snippets[s.current];
    var n := |code| - s.index;
    if n == 0 {
      assert Ticks(1)[1..] == [];
    } else {
      var s' := Step(snippets, s, Tick(true));
      TickInv(snippets, s, true);
      assert Ticks(n)[1..] == Ticks(n - 1);
      assert Ticks(n + 1)[1..] == Ticks(n);
      TypesWholeSnippet(snippets, s');
    }
  }

  /** The snippet index always stays within the snippet list, whatever the events. */
  lemma CurrentInRange(snippets: seq<string>, events: seq<Event>)
    requires |snippets| > 0
    ensures Run(snippets, Init, events).current < |snippets|
    ensures Run(snippets, Init, events).index <= |snippets[Run(snippets, Init, events).current]|
  {
    InitInv(snippets);
    RunPreservesInv(snippets, Init, events);
  }

  /** Two short snippets for the trace below. */
  const MixSnippets: seq<string> := ["abc", "xy"]

  /** Snippet 0 typed and switched away from, snippet 1 half-typed, then a hide, a
      show and one tick. */
  const MixTrace: seq<Event> :=
    [RestartFires, Tick(true), Tick(true), Tick(true), Tick(true), TimeoutFires,
     RestartFires, Tick(true), Hide, Show, Tick(true)]

  /** The states of the editor as written along `MixTrace`: after the show, the
      interval types snippet 0 while snippet 1 is current. */
  const AsWrittenMix: seq<Editor> := [
    Editor(0, 0, "", false, NoInterval, NoTimeout, Some(0)),
    Editor(0, 0, "", false, Typing(0, "abc"), NoTimeout, None),
    Editor(0, 1, "a", false, Typing(0, "abc"), NoTimeout, None),
    Editor(0, 2, "ab", false, Typing(0, "abc"), NoTimeout, None),
    Editor(0, 3, "abc", false, Typing(0, "abc"), NoTimeout, None),
    Editor(0, 3, "abc", false, NoInterval, Switching(0), None),
    Editor(1, 0, "", false, NoInterval, NoTimeout, Some(1)),
    Editor(1, 0, "", false, Typing(1, "xy"), NoTimeout, None),
    Editor(1, 1, "x", false, Typing(1, "xy"), NoTimeout, None),
    Editor(1, 1, "x", true, NoInterval, NoTimeout, None),
    Editor(1, 1, "x", false, Typing(0, "abc"), NoTimeout, None),
    Editor(1, 2, "xb", false, Typing(0, "abc"), NoTimeout, None)
  ]

  /** The states of the intended editor along `MixTrace`. */
  const IntendedMix: seq<Editor> := [
    Editor(0, 0, "", false, NoInterval, NoTimeout, Some(0)),
    Editor(0, 0, "", false, Typing(0, "abc"), NoTimeout, None),
    Editor(0, 1, "a", false, Typing(0, "abc"), NoTimeout, None),
    Editor(0, 2, "ab", false, Typing(0, "abc"), NoTimeout, None),
    Editor(0, 3, "abc", false, Typing(0, "abc"), NoTimeout, None),
    Editor(0, 3, "abc", false, NoInterval, Switching(0), None),
    Editor(1, 0, "", false, NoInterval, NoTimeout, Some(1)),
    Editor(1, 0, "", false, Typing(1, "xy"), NoTimeout, None),
    Editor(1, 1, "x", false, Typing(1, "xy"), NoTimeout, None),
    Editor(1, 1, "x", true, NoInterval, NoTimeout, None),
    Editor(1, 1, "x", false, Typing(1, "xy"), NoTimeout, None),
    Editor(1, 2, "xy", false, Typing(1, "xy"), NoTimeout, None)
  ]

  lemma AsWrittenMixStep(k: nat)
    requires k < 11
    ensures StepAsWritten(MixSnippets, AsWrittenMix[k], MixTrace[k]) == AsWrittenMix[k + 1]
  {
    if k == 0 {
      assert StepWith(MixSnippets, AsWrittenMix[0], MixTrace[0], 0) == AsWrittenMix[1];
    }
    else if k == 1 {
      assert StepWith(MixSnippets, AsWrittenMix[1], MixTrace[1], 0) == AsWrittenMix[2];
    }
    else if k == 2 {
      assert StepWith(MixSnippets, AsWrittenMix[2], MixTrace[2], 0) == AsWrittenMix[3];
    }
    else if k == 3 {
      assert StepWith(MixSnippets, AsWrittenMix[3], MixTrace[3], 0) == AsWrittenMix[4];
    }
    else if k == 4 {
      assert StepWith(MixSnippets, AsWrittenMix[4], MixTrace[4], 0) == AsWrittenMix[5];
    }
    else if k == 5 {
      assert StepWith(MixSnippets, AsWrittenMix[5], MixTrace[5], 0) == AsWrittenMix[6];
    }
    else if k == 6 {
      assert StepWith(MixSnippets, AsWrittenMix[6], MixTrace[6], 0) == AsWrittenMix[7];
    }
    else if k == 7 {
      assert StepWith(MixSnippets, AsWrittenMix[7], MixTrace[7], 0) == AsWrittenMix[8];
    }
    else if k == 8 {
      assert StepWith(MixSnippets, AsWrittenMix[8], MixTrace[8], 0) == AsWrittenMix[9];
    }
    else if k == 9 {
      assert StepWith(MixSnippets, AsWrittenMix[9], MixTrace[9], 0) == AsWrittenMix[10];
    }
    else if k == 10 {
      assert StepWith(MixSnippets, AsWrittenMix[10], MixTrace[10], 0) == AsWrittenMix[11];
    }
  }

  lemma IntendedMixStep(k: nat)
    requires k < 11
    ensures Step(MixSnippets, IntendedMix[k], MixTrace[k]) == IntendedMix[k + 1]
  {
    if k == 0 {
      assert StepWith(MixSnippets, IntendedMix[0], MixTrace[0], IntendedMix[0].current) == IntendedMix[1];
    }
    else if k == 1 {
      assert StepWith(MixSnippets, IntendedMix[1], MixTrace[1], IntendedMix[1].current) == IntendedMix[2];
    }
    else if k == 2 {
      assert StepWith(MixSnippets, IntendedMix[2], MixTrace[2], IntendedMix[2].current) == IntendedMix[3];
    }
    else if k == 3 {
      assert StepWith(MixSnippets, IntendedMix[3], MixTrace[3], IntendedMix[3].current) == IntendedMix[4];
    }
    else if k == 4 {
      assert StepWith(MixSnippets, IntendedMix[4], MixTrace[4], IntendedMix[4].current) == IntendedMix[5];
    }
    else if k == 5 {
      assert StepWith(MixSnippets, IntendedMix[5], MixTrace[5], IntendedMix[5].current) == IntendedMix[6];
    }
    else if k == 6 {
      assert StepWith(MixSnippets, IntendedMix[6], MixTrace[6], IntendedMix[6].current) == IntendedMix[7];
    }
    else if k == 7 {
      assert StepWith(MixSnippets, IntendedMix[7], MixTrace[7], IntendedMix[7].current) == IntendedMix[8];
    }
    else if k == 8 {
      assert StepWith(MixSnippets, IntendedMix[8], MixTrace[8], IntendedMix[8].current) == IntendedMix[9];
    }
    else if k == 9 {
      assert StepWith(MixSnippets, IntendedMix[9], MixTrace[9], IntendedMix[9].current) == IntendedMix[10];
    }
    else if k == 10 {
      assert StepWith(MixSnippets, IntendedMix[10], MixTrace[10], IntendedMix[10].current) == IntendedMix[11];
    }
  }

  lemma {:induction false} AsWrittenMixRun(k: nat)
    requires k <= 11
    ensures RunAsWritten(MixSnippets, AsWrittenMix[k], MixTrace[k..]) == AsWrittenMix[11]
    decreases 11 - k
  {
    if k < 11 {
      AsWrittenMixStep(k);
      AsWrittenMixRun(k + 1);
      assert MixTrace[k..][1..] == MixTrace[k + 1..];
    }
  }

  lemma {:induction false} IntendedMixRun(k: nat)
    requires k <= 11
    ensures Run(MixSnippets, IntendedMix[k], MixTrace[k..]) == IntendedMix[11]
    decreases 11 - k
  {
    if k < 11 {
      IntendedMixStep(k);
      IntendedMixRun(k + 1);
      assert MixTrace[k..][1..] == MixTrace[k + 1..];
    }
  }

  /** As written, resuming in the middle of snippet 1 continues with the code of
      snippet 0 at the saved index. The text shown, "xb", is a prefix of neither
      snippet, and the invariant is broken. */
  lemma AsWrittenResumeMixesSnippets()
    ensures RunAsWritten(MixSnippets, Init, MixTrace).text == "xb"
    ensures !Inv(MixSnippets, RunAsWritten(MixSnippets, Init, MixTrace))
  {
    AsWrittenMixRun(0);
    assert MixTrace[0..] == MixTrace;
    assert MixSnippets[1][..2] == "xy" && "xb"[1] != "xy"[1];
  }

  /** As written, one more tick types past the end of snippet 1: the typing index
      exceeds the length of the current snippet. */
  lemma AsWrittenIndexPassesSnippetEnd()
    ensures var r := RunAsWritten(MixSnippets, Init, MixTrace + [Tick(true)]);
      r.current == 1 && r.index == 3 && r.index > |MixSnippets[r.current]|
  {
    AsWrittenMixRun(0);
    assert MixTrace[0..] == MixTrace;
    RunAsWrittenAppend(MixSnippets, Init, MixTrace, [Tick(true)]);
  }

  lemma {:induction false} RunAsWrittenAppend(snippets: seq<string>, s: Editor, a: seq<Event>, b: seq<Event>)
    requires |snippets| > 0
    ensures RunAsWritten(snippets, s, a + b) == RunAsWritten(snippets, RunAsWritten(snippets, s, a), b)
    decreases |a|
  {
    if |a| == 0 {
      assert a + b == b;
    } else {
      assert (a + b)[0] == a[0] && (a + b)[1..] == a[1..] + b;
      RunAsWrittenAppend(snippets, StepAsWritten(snippets, s, a[0]), a[1..], b);
    }
  }

  /** Whatever resume snippet the visibility handler uses, every event keeps the
      snippet index in range: only the switch changes it, to `(k + 1) mod n`. */
  lemma StepWithKeepsCurrent(snippets: seq<string>, s: Editor, e: Event, resume: nat)
    requires |snippets| > 0 && s.current < |snippets|
    ensures StepWith(snippets, s, e, resume).current < |snippets|
    ensures !e.TimeoutFires? ==> StepWith(snippets, s, e, resume).current == s.current
  {
  }

  /** The program as written also keeps the snippet index in `[0, n)`. */
  lemma {:induction false} AsWrittenCurrentInRange(snippets: seq<string>, s: Editor, events: seq<Event>)
    requires |snippets| > 0 && s.current < |snippets|
    ensures RunAsWritten(snippets, s, events).current < |snippets|
    decreases |events|
  {
    if |events| > 0 {
      StepWithKeepsCurrent(snippets, s, events[0], 0);
      AsWrittenCurrentInRange(snippets, StepAsWritten(snippets, s, events[0]), events[1..]);
    }
  }

  /** The same events, resuming the current snippet: snippet 1 is continued where it
      was left and finished correctly. */
  lemma ResumeCurrentTypesCurrent()
    ensures Run(MixSnippets, Init, MixTrace).text == "xy"
    ensures Inv(MixSnippets, Run(MixSnippets, Init, MixTrace))
  {
    IntendedMixRun(0);
    assert MixTrace[0..] == MixTrace;
    assert MixSnippets[1][..2] == "xy";
  }
}
