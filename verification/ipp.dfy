/** `PuppetX::Cups::Ipp`: running an IPP request through the `ipptool`
    command-line client, deciding from its exit status and output whether the
    call succeeded, and composing the message of the error raised otherwise.
    The process call itself (`Open3.capture3`) is outside the model: its exit
    status, stdout and stderr are plain inputs. */
module Ipp {
  import opened Wrappers
  import opened Text
  import Response

  /** The stderr `ipptool` prints when a query matched no destination: an
      empty but valid answer, not a failure. */
  const NoDestinationsAdded: string := "No destinations added.\n"

  /** The stderr of the quirk where `ipptool` fails while reporting the IPP
      status code `successful-ok` (section 13.1.2.1 of RFC 2911). */
  const SuccessfulOk: string := "successful-ok\n"

  /** The citation an error message carries for the `successful-ok` quirk. */
  const Rfc2911: string := "RFC 2911"

  /** The resource `query` addresses: the print server itself. */
  const ServerRoot: string := "/"

  /** `Ipp::Query`: a resource path on the print server and the request
      text handed to `ipptool`. */
  datatype Query = Query(uri: string, request: string)

  /** `Ipp::Error`: the query that failed with everything `ipptool` printed. */
  datatype Error = Error(query: Query, stdout: string, stderr: string)

  /** The note appended to the message when stderr is `successful-ok`. */
  const SuccessfulOkNote: string :=
    "Note: 'successful-ok' is the IPP status code of section 13.1.2.1 of " + Rfc2911
    + ", which ipptool reported although it failed."

  /** The lines of `Error#message`: a title, then each diagnostic under its
      own label, then the quirk note when stderr is `successful-ok`. */
  function MessageLines(e: Error): (r: seq<string>)
  {
    ["IPP query failed.",
     "URI:", e.query.uri,
     "Request:", e.query.request,
     "stdout:", e.stdout,
     "stderr:", e.stderr]
    + (if e.stderr == SuccessfulOk then [SuccessfulOkNote] else [])
  }

  /** `Error#message`: its lines separated by line breaks. It names the
      URI, the request, stdout and stderr, so that a failure can be
      diagnosed without running `ipptool` again. */
  function Message(e: Error): (r: string)
    ensures Contains(r, e.query.uri) && Contains(r, e.query.request)
    ensures Contains(r, e.stdout) && Contains(r, e.stderr)
  {
    var lines := MessageLines(e);
    JoinContainsPiece(lines, Response.LineBreak, 2);
    JoinContainsPiece(lines, Response.LineBreak, 4);
    JoinContainsPiece(lines, Response.LineBreak, 6);
    JoinContainsPiece(lines, Response.LineBreak, 8);
    Join(lines, Response.LineBreak)
  }

  /** `Ipp.ipptool`: the outcome of one `ipptool` run for `query`, given the
      exit status and the text the process printed. A zero exit status with
      output succeeds; a zero exit status without output is an error; a
      non-zero exit status succeeds only when stderr says that no destination
      matched, and then yields stdout even if it is empty. */
  function Ipptool(query: Query, exitStatus: int, stdout: string, stderr: string): (r: Result<string, Error>)
    ensures r.Success? ==> r.value == stdout
    ensures r.Failure? ==> r.error == Error(query, stdout, stderr)
    ensures r.Success? && exitStatus == 0 ==> stdout != ""
    ensures r.Success? && exitStatus != 0 ==> stderr == NoDestinationsAdded
  {
    if exitStatus == 0 then
      if stdout != "" then Success(stdout) else Failure(Error(query, stdout, stderr))
    else if stderr == NoDestinationsAdded then Success(stdout)
    else Failure(Error(query, stdout, stderr))
  }

  /** `Ipp.query`: the values of the server's answer to `request`, or the
      error `ipptool` raised. */
  function QueryValues(request: string, exitStatus: int, stdout: string, stderr: string): (r: Result<seq<string>, Error>)
    ensures r.Success? ==> forall i :: 0 <= i < |r.value| ==> Response.LineBreak !in r.value[i]
    ensures r.Failure? ==> r.error.query == Query(ServerRoot, request)
  {
    match Ipptool(Query(ServerRoot, request), exitStatus, stdout, stderr)
    case Success(out) => Success(Response.Values(out))
    case Failure(e) => Failure(e)
  }

  // ---------------------------------------------------------------------
  // Outcome classification

  /** `ipptool` succeeds exactly when it exits with status zero and prints
      something, or fails with the "no destinations" message. */
  lemma IpptoolSucceedsIff(query: Query, exitStatus: int, stdout: string, stderr: string)
    ensures Ipptool(query, exitStatus, stdout, stderr).Success?
            <==> (exitStatus == 0 && stdout != "") || (exitStatus != 0 && stderr == NoDestinationsAdded)
  {
  }

  /** Success with empty output is never a success, whatever stderr says. */
  lemma IpptoolEmptySuccessIsError(query: Query, stdout: string, stderr: string)
    requires stdout == ""
    ensures Ipptool(query, 0, stdout, stderr) == Failure(Error(query, "", stderr))
  {
  }

  /** When `ipptool` returns an answer made of a header and values (exit
      status 0, or the "no destinations" failure), `query` yields exactly
      those values. */
  lemma QueryDecodesAnswer(request: string, exitStatus: int, header: string, values: seq<string>, stderr: string)
    requires exitStatus == 0 || stderr == NoDestinationsAdded
    requires Response.LineBreak !in header
    requires forall i :: 0 <= i < |values| ==> Response.LineBreak !in values[i]
    ensures QueryValues(request, exitStatus, Response.Encode(header, values), stderr) == Success(values)
  {
    Response.ValuesEncode(header, values);
  }

  /** A query that matched no destination, as for a queue that does not
      exist yet, yields no values rather than an error, even though
      `ipptool` printed nothing. */
  lemma QueryNoDestinations(request: string, exitStatus: int)
    requires exitStatus != 0
    ensures QueryValues(request, exitStatus, "", NoDestinationsAdded) == Success([])
  {
  }

  // ---------------------------------------------------------------------
  // Error message

  /** The message names the URI, the request, stdout and stderr, and cites
      RFC 2911 when stderr is `successful-ok`. */
  lemma MessageDiagnoses(e: Error)
    ensures Contains(Message(e), e.query.uri)
    ensures Contains(Message(e), e.query.request)
    ensures Contains(Message(e), e.stdout)
    ensures Contains(Message(e), e.stderr)
    ensures e.stderr == SuccessfulOk ==> Contains(Message(e), Rfc2911)
  {
    var lines := MessageLines(e);
    if e.stderr == SuccessfulOk {
      JoinContainsPiece(lines, Response.LineBreak, 9);
      var before := "Note: 'successful-ok' is the IPP status code of section 13.1.2.1 of ";
      var after := ", which ipptool reported although it failed.";
      assert SuccessfulOkNote == before + Rfc2911 + after;
      ContainsMiddle(before, Rfc2911, after);
      ContainsTransitive(Message(e), SuccessfulOkNote, Rfc2911);
    }
  }

  /** Unless the diagnostics themselves mention it, the message cites
      RFC 2911 exactly when stderr is `successful-ok`. */
  lemma MessageCitesRfcIff(e: Error)
    requires !Contains(e.query.uri, Rfc2911) && !Contains(e.query.request, Rfc2911)
    requires !Contains(e.stdout, Rfc2911) && !Contains(e.stderr, Rfc2911)
    ensures Contains(Message(e), Rfc2911) <==> e.stderr == SuccessfulOk
  {
    MessageDiagnoses(e);
    if e.stderr != SuccessfulOk {
      var lines := MessageLines(e);
      NotContainsFirstChar("IPP query failed.", Rfc2911);
      NotContainsFirstChar("stdout:", Rfc2911);
      NotContainsFirstChar("stderr:", Rfc2911);
      assert !Contains("Request:", Rfc2911) by {
        assert "Request:"[0..8][1] == 'e' != Rfc2911[1];
      }
      assert forall k :: 0 <= k < |lines| ==> !Contains(lines[k], Rfc2911);
      NotContainsJoin(lines, Response.LineBreak, Rfc2911);
    }
  }
}
