/** `UploadBatchCommand.run`: executes a backup script line by line. A line
    is `VERB // first // second // encrypt-or-plaintext`; lines starting
    with `#` and empty lines are skipped. The wrapper is an interface here:
    the model is given how each call ends, as a function of the calls made
    before it. */
module UploadBatchCommand {
  import opened Common
  import opened ObjectStore
  import Utils

  const Delimiter := " // "

  /** `d` occurs in `s` at position `i`. */
  predicate OccursAt(s: string, d: string, i: int)
  {
    0 <= i && i + |d| <= |s| && s[i..i + |d|] == d
  }

  /** Kotlin's `split(d)`: cuts at every occurrence of `d`, scanning from the
      left, and keeps empty pieces, trailing ones included. */
  function Split(s: string, d: string): (r: seq<string>)
    requires |d| > 0
    ensures |r| >= 1
    decreases |s|
  {
    if |s| < |d| then [s]
    else if s[..|d|] == d then [""] + Split(s[|d|..], d)
    else
      var rest := Split(s[1..], d);
      [[s[0]] + rest[0]] + rest[1..]
  }

  /** The pieces glued back with `d` between them. */
  function JoinWith(pieces: seq<string>, d: string): string
  {
    if pieces == [] then ""
    else if |pieces| == 1 then pieces[0]
    else pieces[0] + d + JoinWith(pieces[1..], d)
  }

  /** What a wrapper call is asked to do. */
  datatype WrapperCall =
    | UploadFolderAsZip(localFolder: string, targetKey: string, storageClass: StorageClass, encryption: bool)
    | UploadFolder(localFolder: string, remoteFolder: string, storageClass: StorageClass, encryption: bool)
    | UploadFile(localFile: string, targetKey: string, storageClass: StorageClass, encryption: bool)

  /** How a call to the wrapper ends, given the calls made before it. */
  type Wrapper = (seq<WrapperCall>, WrapperCall) -> Result<()>

  datatype LineAction = Skip | Call(call: WrapperCall) | Fail(error: Exception)

  /** How `run` ends: "Uploads completed", an AWS exception caught and
      printed, or an exception thrown out of `run`. */
  datatype Outcome = Completed | Caught(error: Exception) | Propagated(error: Exception)

  /** The two exception kinds the `catch` clauses name. */
  predicate IsAwsException(e: Exception)
  {
    e.AwsService? || e.SdkClient?
  }

  predicate IsSkipped(line: string)
  {
    (|line| > 0 && line[0] == '#') || line == ""
  }

  /** `split[i]`. */
  function Field(fields: seq<string>, i: nat): (r: Result<string>)
    ensures r.Success? <==> i < |fields|
    ensures r.Success? ==> r.value == fields[i]
    ensures r.Failure? ==> r.error == IndexOutOfBounds(i)
  {
    if i < |fields| then Success(fields[i]) else Failure(IndexOutOfBounds(i))
  }

  /** The three arguments every verb reads, in the order it reads them. */
  function Arguments(fields: seq<string>): Result<(string, string, bool)>
  {
    var first :- Field(fields, 1);
    var second :- Field(fields, 2);
    var token :- Field(fields, 3);
    var encrypt :- Utils.ParseEncryptField(token);
    Success((first, second, encrypt))
  }

  /** The `when (command)` of a split line. */
  function ParseFields(fields: seq<string>, storageClass: StorageClass): (r: LineAction)
    requires |fields| >= 1
    ensures r != Skip
    ensures r.Fail? ==> r.error.UnsupportedOperation? || r.error.IndexOutOfBounds? || r.error.IllegalArgument?
  {
    var command := fields[0];
    if command != "UPLOADFOLDERZIP" && command != "UPLOADFOLDER" && command != "UPLOADFILE" then
      Fail(UnsupportedOperation(command))
    else match Arguments(fields)
      case Failure(e) => Fail(e)
      case Success((first, second, encrypt)) =>
        Call(if command == "UPLOADFOLDERZIP" then UploadFolderAsZip(first, second, storageClass, encrypt)
             else if command == "UPLOADFOLDER" then UploadFolder(first, second, storageClass, encrypt)
             else UploadFile(first, second, storageClass, encrypt))
  }

  /** What one line of the script asks for. */
  function ParseLine(line: string, storageClass: StorageClass): (r: LineAction)
    ensures r.Skip? <==> IsSkipped(line)
  {
    if IsSkipped(line) then Skip else ParseFields(Split(line, Delimiter), storageClass)
  }

  /** The rest of a run, after the calls `trace` have been made: the full
      trace and the outcome. */
  function RunFrom(lines: seq<string>, storageClass: StorageClass, wrapper: Wrapper, trace: seq<WrapperCall>)
    : (r: (seq<WrapperCall>, Outcome))
    ensures |trace| <= |r.0| <= |trace| + |lines| && r.0[..|trace|] == trace
    decreases |lines|
  {
    if lines == [] then (trace, Completed)
    else match ParseLine(lines[0], storageClass)
      case Skip => RunFrom(lines[1..], storageClass, wrapper, trace)
      case Fail(e) => (trace, Propagated(e))
      case Call(c) =>
        match wrapper(trace, c)
        case Success(_) => RunFrom(lines[1..], storageClass, wrapper, trace + [c])
        case Failure(e) => (trace + [c], if IsAwsException(e) then Caught(e) else Propagated(e))
  }

  /** `run`: the calls made, in order, and how the run ends. */
  method Run(lines: seq<string>, storageClass: StorageClass, wrapper: Wrapper)
    returns (trace: seq<WrapperCall>, outcome: Outcome)
    ensures (trace, outcome) == RunFrom(lines, storageClass, wrapper, [])
  {
    trace := [];
    var i := 0;
    while i < |lines|
      invariant 0 <= i <= |lines|
      invariant RunFrom(lines, storageClass, wrapper, []) == RunFrom(lines[i..], storageClass, wrapper, trace)
    {
      assert lines[i..][0] == lines[i] && lines[i..][1..] == lines[i + 1..];
      match ParseLine(lines[i], storageClass) {
        case Skip =>
        case Fail(e) =>
          return trace, Propagated(e);
        case Call(c) =>
          var result := wrapper(trace, c);
          trace := trace + [c];
          if result.Failure? {
            outcome := if IsAwsException(result.error) then Caught(result.error) else Propagated(result.error);
            return;
          }
      }
      i := i + 1;
    }
    outcome := Completed;
  }

  // ---------------------------------------------------------------- splitting

  /** The first piece is a prefix of the line. */
  lemma {:induction false} SplitHeadPrefix(s: string, d: string)
    requires |d| > 0
    ensures Split(s, d)[0] <= s
    decreases |s|
  {
    if |s| < |d| {
    } else if s[..|d|] == d {
    } else {
      SplitHeadPrefix(s[1..], d);
    }
  }

  /** Gluing the pieces back with the delimiter gives the line again. */
  lemma {:induction false} SplitJoin(s: string, d: string)
    requires |d| > 0
    ensures JoinWith(Split(s, d), d) == s
    decreases |s|
  {
    if |s| < |d| {
    } else if s[..|d|] == d {
      var rest := Split(s[|d|..], d);
      assert Split(s, d) == [""] + rest;
      SplitJoin(s[|d|..], d);
      JoinWithEmptyHead(rest, d);
      assert s == d + s[|d|..];
    } else {
      var rest := Split(s[1..], d);
      assert Split(s, d) == [[s[0]] + rest[0]] + rest[1..];
      SplitJoin(s[1..], d);
      JoinWithHeadChar(s[0], rest, d);
      assert s == [s[0]] + s[1..];
    }
  }

  /** An empty first piece puts the delimiter in front of the glued text. */
  lemma JoinWithEmptyHead(pieces: seq<string>, d: string)
    requires |pieces| >= 1
    ensures JoinWith([""] + pieces, d) == d + JoinWith(pieces, d)
  {
    assert ([""] + pieces)[1..] == pieces;
  }

  /** Putting a character in front of the first piece puts it in front of the
      glued text. */
  lemma JoinWithHeadChar(c: char, pieces: seq<string>, d: string)
    requires |pieces| >= 1
    ensures JoinWith([[c] + pieces[0]] + pieces[1..], d) == [c] + JoinWith(pieces, d)
  {
    var r := [[c] + pieces[0]] + pieces[1..];
    if |pieces| > 1 {
      assert r[1..] == pieces[1..];
    }
  }

  /** No piece contains the delimiter. */
  lemma {:induction false} SplitPiecesFree(s: string, d: string)
    requires |d| > 0
    ensures forall k, i :: 0 <= k < |Split(s, d)| ==> !OccursAt(Split(s, d)[k], d, i)
    decreases |s|
  {
    var r := Split(s, d);
    if |s| < |d| {
    } else if s[..|d|] == d {
      SplitPiecesFree(s[|d|..], d);
      assert forall k :: 1 <= k < |r| ==> r[k] == Split(s[|d|..], d)[k - 1];
    } else {
      var rest := Split(s[1..], d);
      SplitPiecesFree(s[1..], d);
      SplitHeadPrefix(s[1..], d);
      HeadPieceFree(s, d, rest[0]);
      assert forall k :: 1 <= k < |r| ==> r[k] == rest[k];
    }
  }

  /** The first character of a line that does not start with the delimiter,
      put before a piece free of it, gives a piece free of it. */
  lemma HeadPieceFree(s: string, d: string, piece: string)
    requires |d| > 0 && |s| >= |d| && s[..|d|] != d
    requires [s[0]] + piece <= s
    requires forall i :: !OccursAt(piece, d, i)
    ensures forall i :: !OccursAt([s[0]] + piece, d, i)
  {
    var head := [s[0]] + piece;
    forall i | OccursAt(head, d, i)
      ensures (i == 0 && s[..|d|] == d) || (i > 0 && OccursAt(piece, d, i - 1))
    {
      if i > 0 {
        assert head[i..i + |d|] == piece[i - 1..i - 1 + |d|];
      }
    }
  }

  /** A line without the delimiter is a single piece. */
  lemma {:induction false} SplitWithoutDelimiter(s: string, d: string)
    requires |d| > 0
    requires forall i :: !OccursAt(s, d, i)
    ensures Split(s, d) == [s]
    decreases |s|
  {
    if |s| >= |d| {
      assert !OccursAt(s, d, 0);
      forall i | OccursAt(s[1..], d, i)
        ensures OccursAt(s, d, i + 1)
      {
        assert s[1..][i..i + |d|] == s[i + 1..i + 1 + |d|];
      }
      SplitWithoutDelimiter(s[1..], d);
      assert s == [s[0]] + s[1..];
    }
  }

  // ---------------------------------------------------------------- one line

  /** A line that starts with `#` or is empty does nothing. */
  lemma CommentsSkipped(line: string, storageClass: StorageClass)
    requires |line| > 0 ==> line[0] == '#'
    ensures ParseLine(line, storageClass) == Skip
  {
  }

  /** A non-empty line with no `/` in it that is not one of the three verbs
      (a line of blanks, say) is an unsupported command named by the whole
      line. */
  lemma {:induction false} UndelimitedLineUnsupported(line: string, storageClass: StorageClass)
    requires |line| > 0 && line[0] != '#'
    requires forall i :: 0 <= i < |line| ==> line[i] != '/'
    requires line != "UPLOADFOLDERZIP" && line != "UPLOADFOLDER" && line != "UPLOADFILE"
    ensures ParseLine(line, storageClass) == Fail(UnsupportedOperation(line))
  {
    forall i
      ensures !OccursAt(line, Delimiter, i)
    {
      if 0 <= i && i + |Delimiter| <= |line| {
        assert line[i..i + |Delimiter|][1] == line[i + 1];
      }
    }
    SplitWithoutDelimiter(line, Delimiter);
  }

  /** A line of blanks is not skipped: it stops the run as an unknown
      command. */
  lemma BlankLineUnsupported(storageClass: StorageClass)
    ensures ParseLine("   ", storageClass) == Fail(UnsupportedOperation("   "))
  {
    UndelimitedLineUnsupported("   ", storageClass);
  }

  /** What a split line becomes: a call exactly when the verb is known, the
      three arguments are there and the last is a valid token; otherwise the
      first failure the Kotlin code meets, in its order. */
  lemma ParseFieldsMeaning(fields: seq<string>, storageClass: StorageClass)
    requires |fields| >= 1
    ensures var a := ParseFields(fields, storageClass);
      var known := fields[0] == "UPLOADFOLDERZIP" || fields[0] == "UPLOADFOLDER" || fields[0] == "UPLOADFILE";
      && (a.Call? <==> known && |fields| >= 4 && (fields[3] == "encrypt" || fields[3] == "plaintext"))
      && (!known ==> a == Fail(UnsupportedOperation(fields[0])))
      && (known && |fields| < 4 ==> a == Fail(IndexOutOfBounds(|fields|)))
      && (known && |fields| >= 4 && fields[3] != "encrypt" && fields[3] != "plaintext" ==>
            a.Fail? && a.error.IllegalArgument?)
      && (a.Call? && fields[0] == "UPLOADFOLDERZIP" ==>
            a.call == UploadFolderAsZip(fields[1], fields[2], storageClass, fields[3] == "encrypt"))
      && (a.Call? && fields[0] == "UPLOADFOLDER" ==>
            a.call == UploadFolder(fields[1], fields[2], storageClass, fields[3] == "encrypt"))
      && (a.Call? && fields[0] == "UPLOADFILE" ==>
            a.call == UploadFile(fields[1], fields[2], storageClass, fields[3] == "encrypt"))
  {
  }

  /** Fields after the fourth are never read. */
  lemma ExtraFieldsIgnored(fields: seq<string>, storageClass: StorageClass)
    requires |fields| >= 4
    ensures ParseFields(fields, storageClass) == ParseFields(fields[..4], storageClass)
  {
  }

  // ---------------------------------------------------------------- whole run

  /** The calls the script asks for, in file order, up to the first line
      that fails to parse. */
  function PlannedCalls(lines: seq<string>, storageClass: StorageClass): seq<WrapperCall>
    decreases |lines|
  {
    if lines == [] then []
    else match ParseLine(lines[0], storageClass)
      case Skip => PlannedCalls(lines[1..], storageClass)
      case Fail(_) => []
      case Call(c) => [c] + PlannedCalls(lines[1..], storageClass)
  }

  predicate NoFailLine(lines: seq<string>, storageClass: StorageClass)
  {
    forall i :: 0 <= i < |lines| ==> !ParseLine(lines[i], storageClass).Fail?
  }

  /** Every call in `trace` from position `start` on succeeded. */
  predicate Succeeded(wrapper: Wrapper, start: nat, trace: seq<WrapperCall>)
  {
    forall i :: start <= i < |trace| ==> wrapper(trace[..i], trace[i]).Success?
  }

  /** A run extends the calls already made by a prefix of the planned calls,
      the last of them being the one that failed if the run stops early; it
      completes exactly when every line parses and every planned call is made
      and succeeds; only the two AWS exception kinds are caught. */
  predicate RunShaped(lines: seq<string>, storageClass: StorageClass, wrapper: Wrapper, history: seq<WrapperCall>)
  {
    var (trace, outcome) := RunFrom(lines, storageClass, wrapper, history);
    && |history| <= |trace| && trace[..|history|] == history
    && trace[|history|..] <= PlannedCalls(lines, storageClass)
    && (outcome.Completed? <==>
          NoFailLine(lines, storageClass) && trace[|history|..] == PlannedCalls(lines, storageClass)
          && Succeeded(wrapper, |history|, trace))
    && (outcome.Caught? ==> IsAwsException(outcome.error))
    && (outcome.Propagated? ==> !IsAwsException(outcome.error))
  }

  /** Every run, from any calls already made, has that shape. */
  lemma {:induction false} RunFromShape(lines: seq<string>, storageClass: StorageClass, wrapper: Wrapper, history: seq<WrapperCall>)
    ensures var (trace, outcome) := RunFrom(lines, storageClass, wrapper, history);
      && |history| <= |trace| && trace[..|history|] == history
      && trace[|history|..] <= PlannedCalls(lines, storageClass)
      && (outcome.Completed? <==>
            NoFailLine(lines, storageClass) && trace[|history|..] == PlannedCalls(lines, storageClass)
            && Succeeded(wrapper, |history|, trace))
      && (outcome.Caught? ==> IsAwsException(outcome.error))
      && (outcome.Propagated? ==> !IsAwsException(outcome.error))
    decreases |lines|
  {
    if lines != [] {
      assert forall i :: 1 <= i < |lines| ==> lines[1..][i - 1] == lines[i];
      assert NoFailLine(lines, storageClass) <==>
        !ParseLine(lines[0], storageClass).Fail? && NoFailLine(lines[1..], storageClass);
      match ParseLine(lines[0], storageClass)
      case Skip =>
        RunFromShape(lines[1..], storageClass, wrapper, history);
      case Fail(e) =>
        assert !NoFailLine(lines, storageClass);
      case Call(c) =>
        if wrapper(history, c).Success? {
          RunFromShape(lines[1..], storageClass, wrapper, history + [c]);
          RunShapedAfterCall(lines, storageClass, wrapper, history, c);
        } else {
          RunShapedAtFailure(lines, storageClass, wrapper, history, c);
        }
    }
  }

  /** The step of `RunFromShape` over a line whose call succeeds. */
  lemma RunShapedAfterCall(lines: seq<string>, storageClass: StorageClass, wrapper: Wrapper,
                           history: seq<WrapperCall>, c: WrapperCall)
    requires lines != [] && ParseLine(lines[0], storageClass) == Call(c) && wrapper(history, c).Success?
    requires NoFailLine(lines, storageClass) <==> NoFailLine(lines[1..], storageClass)
    requires RunShaped(lines[1..], storageClass, wrapper, history + [c])
    ensures RunShaped(lines, storageClass, wrapper, history)
  {
    var extended := history + [c];
    var (trace, outcome) := RunFrom(lines, storageClass, wrapper, history);
    assert (trace, outcome) == RunFrom(lines[1..], storageClass, wrapper, extended);
    assert PlannedCalls(lines, storageClass) == [c] + PlannedCalls(lines[1..], storageClass);
    assert trace[..|extended|] == extended;
    assert trace[|history|..] == [c] + trace[|extended|..];
    assert trace[..|history|] == history;
    SucceededStep(wrapper, history, c, trace);
  }

  /** The step of `RunFromShape` over a line whose call fails. */
  lemma RunShapedAtFailure(lines: seq<string>, storageClass: StorageClass, wrapper: Wrapper,
                           history: seq<WrapperCall>, c: WrapperCall)
    requires lines != [] && ParseLine(lines[0], storageClass) == Call(c) && wrapper(history, c).Failure?
    ensures RunShaped(lines, storageClass, wrapper, history)
  {
    var (trace, outcome) := RunFrom(lines, storageClass, wrapper, history);
    assert trace == history + [c];
    assert trace[|history|..] == [c];
    assert trace[..|history|] == history;
    assert !Succeeded(wrapper, |history|, trace);
  }

  /** The calls after `history` succeeded exactly when the next one did and
      those after it did. */
  lemma SucceededStep(wrapper: Wrapper, history: seq<WrapperCall>, c: WrapperCall, trace: seq<WrapperCall>)
    requires |history| < |trace| && trace[..|history| + 1] == history + [c]
    requires wrapper(history, c).Success?
    ensures Succeeded(wrapper, |history|, trace) <==> Succeeded(wrapper, |history| + 1, trace)
  {
    assert trace[..|history|] == history && trace[|history|] == c;
  }

  /** A run made from scratch: its trace is a prefix of the planned calls,
      and it completes exactly when every line parses and every call
      succeeds. */
  lemma RunShape(lines: seq<string>, storageClass: StorageClass, wrapper: Wrapper)
    ensures var (trace, outcome) := RunFrom(lines, storageClass, wrapper, []);
      && trace <= PlannedCalls(lines, storageClass)
      && (outcome.Completed? <==>
            NoFailLine(lines, storageClass) && trace == PlannedCalls(lines, storageClass)
            && Succeeded(wrapper, 0, trace))
      && (outcome.Caught? ==> IsAwsException(outcome.error))
      && (outcome.Propagated? ==> !IsAwsException(outcome.error))
  {
    RunFromShape(lines, storageClass, wrapper, []);
    var trace := RunFrom(lines, storageClass, wrapper, []).0;
    assert trace[0..] == trace;
  }

  /** A line that fails to parse ends the planned calls: nothing after it is
      ever called. */
  lemma {:induction false} PlannedCallsStopAtFailure(lines: seq<string>, k: nat, storageClass: StorageClass)
    requires k < |lines| && ParseLine(lines[k], storageClass).Fail?
    ensures PlannedCalls(lines, storageClass) == PlannedCalls(lines[..k], storageClass)
    ensures !NoFailLine(lines, storageClass)
    decreases k
  {
    if k == 0 {
    } else {
      assert lines[1..][k - 1] == lines[k];
      PlannedCallsStopAtFailure(lines[1..], k - 1, storageClass);
      assert lines[..k][1..] == lines[1..][..k - 1];
    }
  }

  /** The lines other than comments and empty lines. */
  function Uncommented(lines: seq<string>): (r: seq<string>)
    ensures forall i :: 0 <= i < |r| ==> !IsSkipped(r[i])
    ensures |r| <= |lines|
  {
    if lines == [] then []
    else if IsSkipped(lines[0]) then Uncommented(lines[1..])
    else [lines[0]] + Uncommented(lines[1..])
  }

  /** Comments and empty lines can be removed from a script without changing
      what a run does. */
  lemma {:induction false} CommentsIrrelevant(lines: seq<string>, storageClass: StorageClass, wrapper: Wrapper, history: seq<WrapperCall>)
    ensures RunFrom(lines, storageClass, wrapper, history) == RunFrom(Uncommented(lines), storageClass, wrapper, history)
    decreases |lines|
  {
    if lines == [] {
    } else if IsSkipped(lines[0]) {
      CommentsIrrelevant(lines[1..], storageClass, wrapper, history);
    } else {
      var u := Uncommented(lines);
      assert u[0] == lines[0] && u[1..] == Uncommented(lines[1..]);
      forall h: seq<WrapperCall> {
        CommentsIrrelevant(lines[1..], storageClass, wrapper, h);
      }
    }
  }
}
