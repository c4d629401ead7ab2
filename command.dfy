/** The `updates` command: lists the available upgrades, or lets the user pick the
    ones to apply. The `go list` output, the user's answer and the outcome of each
    `go get` are inputs; what is printed, offered and upgraded is the result. */
module UpdatesCommand {
  import opened Records
  import opened Filter
  import opened Selection
  import opened Report

  /** What one run does: its writes to standard output, the options offered to the
      prompt (none when it is not shown), the `go get` addresses in the order they
      were issued, and the condition it aborted on, if any. */
  datatype Transcript = Transcript(
    stdout: seq<Line>,
    offered: Option<seq<string>>,
    issued: seq<string>,
    fatal: Option<Fatal>)

  /** `report` is the outcome of `go list -u -m -json all`: its decoded record stream,
      or the reason it failed. */
  method Run(report: Result<seq<Token>, string>, direct: bool, interactive: bool,
             answer: Answer, failing: set<string>)
    returns (t: Transcript)
    ensures report.Failure? ==>
      t == Transcript([Searching], None, [], Some(ReportUnavailable(report.error)))
    ensures report.Success? && Decode(report.value).Failure? ==>
      t == Transcript([Searching], None, [], Some(MalformedRecord(Decode(report.value).error)))
    ensures report.Success? && Decode(report.value).Success? ==>
      Candidates(Decode(report.value).value, direct) == [] ==>
      t == Transcript([Searching, NoUpdates], None, [], None)
    ensures report.Success? && Decode(report.value).Success? && !interactive ==>
      var updates := Candidates(Decode(report.value).value, direct);
      updates != [] ==>
        t.offered == None && t.issued == [] && t.fatal == None &&
        |t.stdout| == |updates| + 2 && t.stdout[0] == Searching && t.stdout[1] == Blank &&
        forall k :: 0 <= k < |updates| ==> t.stdout[k + 2] == Bullet(Descriptor(updates[k]))
    ensures report.Success? && Decode(report.value).Success? && interactive ==>
      var updates := Candidates(Decode(report.value).value, direct);
      updates != [] ==>
        t.offered.Some? && Lockstep(updates, t.offered.value) &&
        t.stdout != [] && t.stdout[0] == Searching &&
        Dispatched(updates, answer, failing, t.stdout[1..], t.issued, t.fatal)
  {
    var stdout := [Searching];
    if report.Failure? {
      return Transcript(stdout, None, [], Some(ReportUnavailable(report.error)));
    }
    var decoded := DecodeFormatOutput(report.value, direct);
    if decoded.Failure? {
      return Transcript(stdout, None, [], Some(MalformedRecord(decoded.error)));
    }
    var (updates, questions) := decoded.value;
    if |questions| == 0 {
      return Transcript(stdout + [NoUpdates], None, [], None);
    }
    if interactive {
      var offered, progress, issued, fatal := Interactivity(updates, questions, answer, failing);
      assert (stdout + progress)[1..] == progress;
      t := Transcript(stdout + progress, Some(offered), issued, fatal);
    } else {
      var listing := ListUpdates(questions);
      t := Transcript(stdout + listing, None, [], None);
    }
  }
}
