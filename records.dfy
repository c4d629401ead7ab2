/** The module-state records that `go list -u -m -json all` reports, the stream of
    records its JSON decoder yields, and the fatal conditions of the `updates` command. */
module Records {

  datatype Option<T> = None | Some(value: T)

  datatype Result<T, E> = Success(value: T) | Failure(error: E)

  /** The `Update` block of a record: the newer version that is available and when it
      was published. An absent block decodes to all-empty fields. */
  datatype Update = Update(path: string, version: string, time: string)

  /** One record of the report: a module the project depends on, or the project itself. */
  datatype Output = Output(
    path: string,
    version: string,
    time: string,
    indirect: bool,
    main: bool,
    update: Update)

  /** One call of the decoder: a decoded record, or a record it could not parse.
      The end of a token sequence is the decoder's end of stream. */
  datatype Token = Record(output: Output) | Malformed(reason: string)

  /** The conditions on which the command aborts the whole run. */
  datatype Fatal =
    | ReportUnavailable(reason: string)
    | MalformedRecord(reason: string)
    | PromptFailed(reason: string)
    | UpgradeFailed(address: string)

  /** One write to standard output by the command, in the order they happen. */
  datatype Line =
    | Searching                              // before `go list` runs
    | NoUpdates                              // no candidate was found
    | Blank                                  // the empty line that opens the listing
    | Bullet(descriptor: string)             // one candidate in the listing
    | Updating(path: string, version: string) // before each `go get`

  /** The exact text each write puts on standard output. */
  function Render(line: Line): (text: string) {
    match line
    case Searching => "Searching for package updates...\n"
    case NoUpdates => "\nNo updates available!\n"
    case Blank => "\n"
    case Bullet(d) => "* " + d + "\n"
    case Updating(p, v) => "Updating " + p + " to " + v + "\n"
  }

  /** Decoding the whole stream: every record up to the end of stream, or the first
      decode error, in which case no record is returned at all. */
  function Decode(stream: seq<Token>): (r: Result<seq<Output>, string>)
    ensures r.Success? ==> |r.value| == |stream|
    ensures r.Failure? ==> Malformed(r.error) in stream
  {
    if stream == [] then Success([])
    else match stream[0]
      case Malformed(reason) => Failure(reason)
      case Record(o) =>
        match Decode(stream[1..])
        case Failure(reason) => Failure(reason)
        case Success(rest) => Success([o] + rest)
  }

  /** What decoding yields: all the records when every token is one, otherwise the
      error of the first malformed token, with only records before it. */
  lemma {:induction false} DecodeMeaning(stream: seq<Token>)
    ensures Decode(stream).Success? <==> forall i :: 0 <= i < |stream| ==> stream[i].Record?
    ensures Decode(stream).Success? ==>
      forall i :: 0 <= i < |stream| ==> stream[i] == Record(Decode(stream).value[i])
    ensures Decode(stream).Failure? ==>
      exists i :: 0 <= i < |stream| && stream[i] == Malformed(Decode(stream).error) &&
        forall j :: 0 <= j < i ==> stream[j].Record?
  {
    if stream != [] {
      var rest := stream[1..];
      DecodeMeaning(rest);
      if stream[0].Malformed? {
        assert stream[0] == Malformed(Decode(stream).error);
      } else if Decode(rest).Failure? {
        var i :| 0 <= i < |rest| && rest[i] == Malformed(Decode(rest).error) &&
          forall j :: 0 <= j < i ==> rest[j].Record?;
        assert stream[i + 1] == Malformed(Decode(stream).error);
      } else {
        assert forall i :: 0 < i < |stream| ==> stream[i] == rest[i - 1];
      }
    }
  }

  /** A stream made only of records decodes to exactly those records. */
  lemma {:induction false} DecodeAllRecords(stream: seq<Token>, records: seq<Output>)
    requires |records| == |stream|
    requires forall i :: 0 <= i < |stream| ==> stream[i] == Record(records[i])
    ensures Decode(stream) == Success(records)
  {
    if stream != [] {
      DecodeAllRecords(stream[1..], records[1..]);
      assert records == [records[0]] + records[1..];
    }
  }

  /** The first decode error is the one the whole decode reports. */
  lemma {:induction false} DecodeStopsAt(stream: seq<Token>, i: nat)
    requires i < |stream| && stream[i].Malformed?
    requires forall j :: 0 <= j < i ==> stream[j].Record?
    ensures Decode(stream) == Failure(stream[i].reason)
  {
    if i > 0 {
      DecodeStopsAt(stream[1..], i - 1);
    }
  }

  /** A report whose second of three records is truncated aborts with that record's
      error; the valid records around it are not returned. */
  lemma TruncatedSecondRecord(a: Output, b: Output, reason: string)
    ensures Decode([Record(a), Malformed(reason), Record(b)]) == Failure(reason)
  {
    DecodeStopsAt([Record(a), Malformed(reason), Record(b)], 1);
  }
}
