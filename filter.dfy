/** The candidate filter and descriptor formatter: which records of the report are
    upgrade candidates, and the text line each candidate is offered under. */
module Filter {
  import opened Records

  /** A record is an upgrade candidate when it is not the main module, is not an
      indirect dependency while only direct ones are wanted, and has a publication
      time for its available update. */
  predicate Relevant(o: Output, direct: bool) {
    !o.main && !(direct && o.indirect) && o.update.time != ""
  }

  /** The candidates among `records`, in report order, duplicates kept: each record
      that passes the filter is appended in turn. */
  function Candidates(records: seq<Output>, direct: bool): (r: seq<Output>)
    ensures |r| <= |records|
  {
    if records == [] then []
    else
      var last := |records| - 1;
      Candidates(records[..last], direct) + (if Relevant(records[last], direct) then [records[last]] else [])
  }

  /** The positions in `records` of the candidates, in increasing order: an index-based
      reference definition of the same selection. */
  function Kept(records: seq<Output>, direct: bool): (idx: seq<nat>)
    ensures forall k :: 0 <= k < |idx| ==> idx[k] < |records|
  {
    if records == [] then []
    else
      var last := |records| - 1;
      Kept(records[..last], direct) + (if Relevant(records[last], direct) then [last] else [])
  }

  /** A record is among the candidates exactly when it is in the report and passes
      the filter. */
  lemma {:induction false} CandidatesMembership(records: seq<Output>, direct: bool)
    ensures forall o :: o in Candidates(records, direct) <==> o in records && Relevant(o, direct)
  {
    if records != [] {
      var last := |records| - 1;
      CandidatesMembership(records[..last], direct);
      assert records == records[..last] + [records[last]];
    }
  }

  /** The kept positions increase strictly, and a position is kept exactly when the
      record there passes the filter. */
  lemma {:induction false} KeptPositions(records: seq<Output>, direct: bool)
    ensures forall k, l :: 0 <= k < l < |Kept(records, direct)| ==>
      Kept(records, direct)[k] < Kept(records, direct)[l]
    ensures forall j :: 0 <= j < |records| ==>
      (j in Kept(records, direct) <==> Relevant(records[j], direct))
  {
    if records != [] {
      var last := |records| - 1;
      KeptPositions(records[..last], direct);
    }
  }

  /** Filtering one more record appends it exactly when it passes. */
  lemma CandidatesStep(records: seq<Output>, o: Output, direct: bool)
    ensures Candidates(records + [o], direct) ==
      Candidates(records, direct) + (if Relevant(o, direct) then [o] else [])
  {
    assert (records + [o])[..|records|] == records;
  }

  /** Filtering a concatenation filters each part: the filter never reorders. */
  lemma {:induction false} CandidatesAppend(a: seq<Output>, b: seq<Output>, direct: bool)
    ensures Candidates(a + b, direct) == Candidates(a, direct) + Candidates(b, direct)
  {
    if b == [] {
      assert a + b == a;
    } else {
      var front := b[..|b| - 1];
      assert (a + b)[..|a + b| - 1] == a + front;
      CandidatesAppend(a, front, direct);
    }
  }

  /** The candidates are exactly the records at the kept positions, in that order:
      `Candidates` is the in-order subsequence of the records that pass the filter. */
  lemma {:induction false} CandidatesAreKeptRecords(records: seq<Output>, direct: bool)
    ensures |Candidates(records, direct)| == |Kept(records, direct)|
    ensures forall k :: 0 <= k < |Kept(records, direct)| ==>
      Candidates(records, direct)[k] == records[Kept(records, direct)[k]]
  {
    if records != [] {
      var last := |records| - 1;
      var front := records[..last];
      CandidatesAreKeptRecords(front, direct);
      var c, kept := Candidates(front, direct), Kept(front, direct);
      forall k | 0 <= k < |kept|
        ensures Candidates(records, direct)[k] == records[kept[k]]
      {
        assert c[k] == front[kept[k]];
      }
    }
  }

  /** The descriptor a candidate is offered under: "path version -> newVersion". */
  function Descriptor(o: Output): (d: string) {
    o.path + " " + o.version + " -> " + o.update.version
  }

  /** `questions` lists the descriptors of `updates`, position by position. */
  predicate Lockstep(updates: seq<Output>, questions: seq<string>) {
    |questions| == |updates| &&
    forall i :: 0 <= i < |updates| ==> questions[i] == Descriptor(updates[i])
  }

  /** A report with the main module `x` and one direct dependency `y`, both with an
      update: only `y` is a candidate, listed as "y 2.0 -> 2.1". */
  lemma MainModuleIsNotListed()
    ensures var x := Output("x", "1.0", "", false, true, Update("", "1.1", "t"));
      var y := Output("y", "2.0", "", false, false, Update("", "2.1", "t"));
      Candidates([x, y], false) == [y] && Descriptor(y) == "y 2.0 -> 2.1"
  {
    var x := Output("x", "1.0", "", false, true, Update("", "1.1", "t"));
    var y := Output("y", "2.0", "", false, false, Update("", "2.1", "t"));
    assert [x, y][1..] == [y] && [y][1..] == [];
  }

  /** The same report with `y` indirect and only direct dependencies wanted has no
      candidate. */
  lemma IndirectIsNotListedWhenDirect()
    ensures var x := Output("x", "1.0", "", false, true, Update("", "1.1", "t"));
      var y := Output("y", "2.0", "", true, false, Update("", "2.1", "t"));
      Candidates([x, y], true) == []
  {
    var x := Output("x", "1.0", "", false, true, Update("", "1.1", "t"));
    var y := Output("y", "2.0", "", true, false, Update("", "2.1", "t"));
    assert [x, y][1..] == [y] && [y][1..] == [];
  }

  /** Decodes the report and collects the candidates and their descriptors. A decode
      error anywhere aborts with that error and no partial result. */
  method DecodeFormatOutput(stream: seq<Token>, direct: bool)
    returns (r: Result<(seq<Output>, seq<string>), string>)
    ensures Decode(stream).Failure? ==> r == Failure(Decode(stream).error)
    ensures Decode(stream).Success? ==>
      r.Success? && r.value.0 == Candidates(Decode(stream).value, direct)
    ensures r.Success? ==> Lockstep(r.value.0, r.value.1)
  {
    var updates: seq<Output> := [];
    var questions: seq<string> := [];
    ghost var decoded: seq<Output> := [];
    var i := 0;
    while true
      invariant 0 <= i <= |stream|
      invariant |decoded| == i
      invariant forall j :: 0 <= j < i ==> stream[j] == Record(decoded[j])
      invariant updates == Candidates(decoded, direct)
      invariant Lockstep(updates, questions)
      decreases |stream| - i
    {
      if i == |stream| {
        // end of stream
        DecodeAllRecords(stream, decoded);
        break;
      }
      var token := stream[i];
      if token.Malformed? {
        DecodeStopsAt(stream, i);
        return Failure(token.reason);
      }
      var o := token.output;
      CandidatesStep(decoded, o, direct);
      decoded := decoded + [o];
      i := i + 1;

      if o.main {
        continue;
      }
      if direct && o.indirect {
        continue;
      }
      if o.update.time == "" {
        continue;
      }

      updates := updates + [o];
      questions := questions + [Descriptor(o)];
    }
    r := Success((updates, questions));
  }
}
