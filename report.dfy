/** The non-interactive listing of the candidates' descriptors. */
module Report {
  import opened Records

  /** Prints the "no updates" message when there is no descriptor; otherwise an empty
      line and then one bullet per descriptor, in order. */
  method ListUpdates(questions: seq<string>) returns (stdout: seq<Line>)
    ensures questions == [] ==> stdout == [NoUpdates]
    ensures questions != [] ==>
      |stdout| == |questions| + 1 && stdout[0] == Blank &&
      forall k :: 0 <= k < |questions| ==> stdout[k + 1] == Bullet(questions[k])
  {
    if |questions| == 0 {
      stdout := [NoUpdates];
      return;
    }
    stdout := [Blank];
    for k := 0 to |questions|
      invariant |stdout| == k + 1 && stdout[0] == Blank
      invariant forall l :: 0 <= l < k ==> stdout[l + 1] == Bullet(questions[l])
    {
      stdout := stdout + [Bullet(questions[k])];
    }
  }
}
