/** `Worker.install_game` of hdlg/ui/worker.py: it runs hdl-dump's inject
    command and turns each line hdl-dump prints into a status message and a
    progress percentage for the window, then reports the game installed.
    The Qt signals are modelled as the sequence of what is emitted; running
    hdl-dump and converting the percentage with `float()` are parameters. */
module Worker {
  import opened Wrappers
  import opened Strings

  /** What `install_game` emits. */
  datatype Signal =
    | StatusMessage(text: string)
    | Progress(percent: real)
    | Finished
      /** `self.error.emit(e)`: an exception ended the installation. */
    | Failed

  /** A progress line: the progress itself, and the time remaining and
      speed when hdl-dump printed them. */
  datatype ProgressLine = ProgressLine(progress: string, remaining: Option<string>, speed: Option<string>)

  /** `line.split(", ")`: three parts are progress, remaining and speed;
      any other count leaves the first part alone. */
  function ParseProgressLine(line: string): (p: ProgressLine)
    ensures p.remaining.Some? <==> |Split(line, ", ", -1)| == 3
    ensures p.remaining.Some? <==> p.speed.Some?
    ensures p.remaining.Some? ==> Join([p.progress, p.remaining.value, p.speed.value], ", ") == line
    ensures p.progress == Split(line, ", ", -1)[0]
  {
    var parts := Split(line, ", ", -1);
    if |parts| == 3 then
      assert parts == [parts[0], parts[1], parts[2]];
      ProgressLine(parts[0], Some(parts[1]), Some(parts[2]))
    else ProgressLine(parts[0], None, None)
  }

  /** The items of the list that are present and not empty, in order. */
  function Present(items: seq<Option<string>>): (r: seq<string>)
    ensures |r| <= |items|
    ensures forall k :: 0 <= k < |r| ==> |r[k]| > 0
  {
    if |items| == 0 then []
    else
      var rest := Present(items[1..]);
      if items[0].Some? && |items[0].value| > 0 then [items[0].value] + rest else rest
  }

  /** The status message of one line:
      `", ".join(x for x in [f"{progress} Installed {stem} ({game_id})", remaining, speed] if x)`. */
  function StatusText(p: ProgressLine, stem: string, gameId: string): string {
    Join(Present([Some(p.progress + " Installed " + stem + " (" + gameId + ")"), p.remaining, p.speed]), ", ")
  }

  /** `progress.split("%")[0]`: the text before the first percent sign. */
  function PercentText(progress: string): string {
    Split(progress, "%", -1)[0]
  }

  /** The arguments hdl-dump is run with. `title` is the ISO's stem in
      title case and `path` its absolute path, both worked out by the
      caller. */
  function InjectCommand(mediaType: string, hdlTarget: string, title: string, path: string, gameId: string): seq<string> {
    ["inject_" + Lower(mediaType), hdlTarget, title, path, gameId]
  }

  /** What one line gives: its status message and its percentage, None
      where `float()` raises. */
  datatype Step = Step(status: string, percent: Option<real>)

  function LineStep(line: string, stem: string, gameId: string, parseFloat: string -> Option<real>): Step {
    var p := ParseProgressLine(line);
    Step(StatusText(p, stem, gameId), parseFloat(PercentText(p.progress)))
  }

  /** The steps of all lines, in order. */
  function Steps(lines: seq<string>, stem: string, gameId: string, parseFloat: string -> Option<real>): (steps: seq<Step>)
    ensures |steps| == |lines|
    ensures forall k :: 0 <= k < |lines| ==> steps[k] == LineStep(lines[k], stem, gameId, parseFloat)
  {
    seq(|lines|, k requires 0 <= k < |lines| => LineStep(lines[k], stem, gameId, parseFloat))
  }

  /** What is emitted from the steps on: per line, the status message and
      then the progress; a percentage `float()` refuses ends everything
      with the error; once the lines run out, the closing message and
      `finished`. */
  function Trace(steps: seq<Step>, closing: string): (signals: seq<Signal>)
    ensures |signals| >= 2
  {
    if |steps| == 0 then [StatusMessage(closing), Finished]
    else if steps[0].percent.None? then [StatusMessage(steps[0].status), Failed]
    else [StatusMessage(steps[0].status), Progress(steps[0].percent.value)] + Trace(steps[1..], closing)
  }

  /** The installation ends with exactly one `finished` or error, last;
      it finishes exactly when every percentage converts; and then each
      line gave its status message followed by its progress, and the
      closing message came last before `finished`. */
  lemma {:induction false} TraceShape(steps: seq<Step>, closing: string)
    ensures var signals := Trace(steps, closing);
      && (signals[|signals| - 1] == Finished || signals[|signals| - 1] == Failed)
      && (forall k :: 0 <= k < |signals| - 1 ==> signals[k] != Finished && signals[k] != Failed)
      && (signals[|signals| - 1] == Finished <==> forall k :: 0 <= k < |steps| ==> steps[k].percent.Some?)
      && (signals[|signals| - 1] == Finished ==>
            && |signals| == 2 * |steps| + 2
            && signals[2 * |steps|] == StatusMessage(closing)
            && forall k :: 0 <= k < |steps| ==>
                 signals[2 * k] == StatusMessage(steps[k].status) && signals[2 * k + 1] == Progress(steps[k].percent.value))
  {
    if |steps| > 0 && steps[0].percent.Some? {
      var rest := Trace(steps[1..], closing);
      var signals := Trace(steps, closing);
      TraceShape(steps[1..], closing);
      assert forall k :: 1 <= k < |steps| ==> steps[k] == steps[1..][k - 1];
      assert forall k :: 2 <= k < |signals| ==> signals[k] == rest[k - 2];
      if signals[|signals| - 1] == Finished {
        forall k | 0 <= k < |steps|
          ensures signals[2 * k] == StatusMessage(steps[k].status)
          ensures signals[2 * k + 1] == Progress(steps[k].percent.value)
        {
          if k > 0 {
            assert signals[2 * k] == rest[2 * (k - 1)];
          }
        }
      }
    }
  }

  /** A failed installation: each line before the first percentage
      `float()` refuses gave its status message and its progress, then
      that line gave its status message, and the error came last. */
  lemma {:induction false} TraceFailure(steps: seq<Step>, closing: string, f: nat)
    requires f < |steps| && steps[f].percent.None?
    requires forall k :: 0 <= k < f ==> steps[k].percent.Some?
    ensures var signals := Trace(steps, closing);
      && |signals| == 2 * f + 2
      && signals[2 * f] == StatusMessage(steps[f].status) && signals[2 * f + 1] == Failed
      && forall k :: 0 <= k < f ==>
           signals[2 * k] == StatusMessage(steps[k].status) && signals[2 * k + 1] == Progress(steps[k].percent.value)
  {
    if f > 0 {
      var tail := steps[1..];
      var rest := Trace(tail, closing);
      var signals := Trace(steps, closing);
      assert forall k :: 1 <= k < |steps| ==> steps[k] == tail[k - 1];
      TraceFailure(tail, closing, f - 1);
      assert signals == [StatusMessage(steps[0].status), Progress(steps[0].percent.value)] + rest;
      forall k | 0 <= k < f
        ensures signals[2 * k] == StatusMessage(steps[k].status)
        ensures signals[2 * k + 1] == Progress(steps[k].percent.value)
      {
        if k > 0 {
          assert signals[2 * k] == rest[2 * (k - 1)];
          assert signals[2 * k + 1] == rest[2 * (k - 1) + 1];
        }
      }
      assert signals[2 * f] == rest[2 * (f - 1)];
      assert signals[2 * f + 1] == rest[2 * (f - 1) + 1];
    }
  }

  /** `install_game`: the opening message, then the loop over the lines of
      `hdl-dump inject_<media type>` (`hdlDumpLive` runs hdl-dump on its
      arguments and gives back the lines as they come, stripped), then the
      closing message. */
  method InstallGame(hdlTarget: string, stem: string, title: string, path: string, mediaType: string,
                     discLabel: string, gameId: string,
                     hdlDumpLive: seq<string> -> seq<string>, parseFloat: string -> Option<real>)
    returns (signals: seq<Signal>)
    ensures var lines := hdlDumpLive(InjectCommand(mediaType, hdlTarget, title, path, gameId));
      signals == [StatusMessage("Installing " + stem + " (" + gameId + ")")]
        + Trace(Steps(lines, stem, gameId, parseFloat), "Installed " + discLabel + " (" + gameId + " " + mediaType + ")...")
  {
    var lines := hdlDumpLive(InjectCommand(mediaType, hdlTarget, title, path, gameId));
    ghost var steps := Steps(lines, stem, gameId, parseFloat);
    var closing := "Installed " + discLabel + " (" + gameId + " " + mediaType + ")...";
    signals := [StatusMessage("Installing " + stem + " (" + gameId + ")")];
    ghost var all := signals + Trace(steps, closing);
    var k := 0;
    while k < |lines|
      invariant 0 <= k <= |lines|
      invariant signals + Trace(steps[k..], closing) == all
    {
      var p := ParseProgressLine(lines[k]);
      var status := StatusText(p, stem, gameId);
      var percent := parseFloat(PercentText(p.progress));
      assert steps[k..][0] == steps[k] == Step(status, percent);
      assert steps[k..][1..] == steps[k + 1..];
      if percent.None? {
        return signals + [StatusMessage(status), Failed];
      }
      signals := signals + [StatusMessage(status), Progress(percent.value)];
      k := k + 1;
    }
    signals := signals + [StatusMessage(closing), Finished];
  }

  lemma PresentAll(a: string, b: string, c: string)
    requires |a| > 0 && |b| > 0 && |c| > 0
    ensures Present([Some(a), Some(b), Some(c)]) == [a, b, c]
  {
    var one := [Some(c)];
    assert one[1..] == [];
    assert Present(one) == [c];
    var two := [Some(b), Some(c)];
    assert two[1..] == one;
    assert Present(two) == [b, c];
    var items := [Some(a), Some(b), Some(c)];
    assert items[1..] == two;
  }

  lemma ParseFullLine(progress: string, remaining: string, speed: string)
    requires ',' !in progress && ',' !in remaining && ',' !in speed
    ensures ParseProgressLine(Join([progress, remaining, speed], ", ")) == ProgressLine(progress, Some(remaining), Some(speed))
  {
    SplitJoined([progress, remaining, speed], ", ", -1);
  }

  /** On a three-part line with a time remaining and a speed, the status
      message is the line with " Installed <stem> (<game id>)" put after
      the progress. */
  lemma StatusOfFullLine(progress: string, remaining: string, speed: string, stem: string, gameId: string)
    requires ',' !in progress && ',' !in remaining && ',' !in speed
    requires |remaining| > 0 && |speed| > 0
    ensures var p := ParseProgressLine(Join([progress, remaining, speed], ", "));
      && p == ProgressLine(progress, Some(remaining), Some(speed))
      && StatusText(p, stem, gameId) == progress + " Installed " + stem + " (" + gameId + "), " + remaining + ", " + speed
  {
    ParseFullLine(progress, remaining, speed);
    var head := progress + " Installed " + stem + " (" + gameId + ")";
    PresentAll(head, remaining, speed);
    var two := [remaining, speed];
    assert two[1..] == [speed];
    assert Join(two, ", ") == remaining + ", " + speed;
    var three := [head, remaining, speed];
    assert three[1..] == two;
    assert Join(three, ", ") == head + ", " + (remaining + ", " + speed);
  }

  /** A line that is not three parts gives the status of its first part
      alone. */
  lemma StatusOfShortLine(line: string, stem: string, gameId: string)
    requires |Split(line, ", ", -1)| != 3
    ensures var p := ParseProgressLine(line);
      StatusText(p, stem, gameId) == Split(line, ", ", -1)[0] + " Installed " + stem + " (" + gameId + ")"
  {
    var p := ParseProgressLine(line);
    var head := p.progress + " Installed " + stem + " (" + gameId + ")";
    var items: seq<Option<string>> := [Some(head), None, None];
    assert items[1..] == [None, None];
    assert items[1..][1..] == [None];
    var none: seq<Option<string>> := [None];
    assert none[1..] == [];
    assert Present(none) == [];
    assert Present(items[1..]) == [];
    assert Present(items) == [head];
  }

  /** The percentage is what comes before the first percent sign. */
  lemma PercentBeforeSign(number: string, rest: string)
    requires '%' !in number
    ensures PercentText(number + "%" + rest) == number
  {
    FirstAt(number, "%", rest);
    SplitFirst(number, "%", rest, -1);
  }
}
