/** The concrete cases the unit tests of the IPP helpers check, one lemma per
    case. The parsing cases are derived from the general lemmas of `Response`
    and `Ipp`; the `ipptool` cases follow from its definition directly. The
    `Joined` and `query` cases are proved by a helper (suffix `Of`) that
    takes the printed output as a parameter fixed by its precondition, so
    that the proof goes through the lemmas rather than through unfolding
    the line splitting on a literal. */
module IppExamples {
  import opened Wrappers
  import opened Text
  import Response
  import Ipp

  const MicCheck: string := "Microphone check"

  /** The output for a header alone. */
  lemma EncodeNone(header: string)
    ensures Response.Encode(header, []) == header + "\n"
  {
    assert [header] + [] == [header];
    assert Terminated([header], '\n') == header + "\n" + Terminated([], '\n');
  }

  /** The output for a header and a single value. */
  lemma EncodeOne(header: string, v: string)
    ensures Response.Encode(header, [v]) == header + "\n" + v + "\n"
  {
    assert Terminated([v], '\n') == v + "\n" + Terminated([], '\n');
    assert [header] + [v] == [header, v] && [header, v][1..] == [v];
    assert Terminated([header, v], '\n') == header + "\n" + Terminated([v], '\n');
  }

  /** The output for a header and two values. */
  lemma EncodeTwo(header: string, v: string, w: string)
    ensures Response.Encode(header, [v, w]) == header + "\n" + v + "\n" + w + "\n"
  {
    assert Terminated([w], '\n') == w + "\n" + Terminated([], '\n');
    assert [v, w][1..] == [w];
    assert Terminated([v, w], '\n') == v + "\n" + Terminated([w], '\n');
    assert [header] + [v, w] == [header, v, w] && [header, v, w][1..] == [v, w];
    assert Terminated([header, v, w], '\n') == header + "\n" + Terminated([v, w], '\n');
  }

  // ---------------------------------------------------------------------
  // Response#to_a

  /** A header followed by one line break has no values. */
  lemma ValuesHeaderOnly()
    ensures Response.Values("Microphone check\n") == []
  {
    EncodeNone(MicCheck);
    assert "Microphone check\n" == Response.Encode(MicCheck, []);
    Response.ValuesEncode(MicCheck, []);
  }

  /** A header followed by two line breaks has one empty value. */
  lemma ValuesEmptyLine()
    ensures Response.Values("Microphone check\n\n") == [""]
  {
    EncodeOne(MicCheck, "");
    assert "Microphone check\n\n" == Response.Encode(MicCheck, [""]);
    Response.ValuesEncode(MicCheck, [""]);
  }

  /** One line after the header is one value. */
  lemma ValuesOne()
    ensures Response.Values("Microphone check\nOne\n") == ["One"]
  {
    EncodeOne(MicCheck, "One");
    assert "Microphone check\nOne\n" == Response.Encode(MicCheck, ["One"]);
    Response.ValuesEncode(MicCheck, ["One"]);
  }

  /** Two lines after the header are two values, in order. */
  lemma ValuesTwo()
    ensures Response.Values("Microphone check\nOne\nTwo\n") == ["One", "Two"]
  {
    EncodeTwo(MicCheck, "One", "Two");
    assert "Microphone check\nOne\nTwo\n" == Response.Encode(MicCheck, ["One", "Two"]);
    Response.ValuesEncode(MicCheck, ["One", "Two"]);
  }

  // ---------------------------------------------------------------------
  // Response#to_s

  /** The comma join of two values. */
  lemma JoinTwo(v: string, w: string)
    ensures Join([v, w], ',') == v + "," + w
  {
    assert [v, w][1..] == [w];
  }

  /** No values: `#to_s` is `nil`. */
  lemma JoinedHeaderOnlyOf(stdout: string)
    requires stdout == "Microphone check\n"
    ensures Response.Joined(stdout) == None
  {
    EncodeNone(MicCheck);
    assert stdout == Response.Encode(MicCheck, []);
    Response.ValuesEncode(MicCheck, []);
    Response.JoinedValues(stdout);
  }

  /** "Microphone check\n" has no values, so `#to_s` is `nil`. */
  lemma JoinedHeaderOnly()
    ensures Response.Joined("Microphone check\n") == None
  {
    JoinedHeaderOnlyOf("Microphone check\n");
  }

  /** One empty value: `#to_s` is the empty string, not `nil`. */
  lemma JoinedEmptyLineOf(stdout: string)
    requires stdout == "Microphone check\n\n"
    ensures Response.Joined(stdout) == Some("")
  {
    EncodeOne(MicCheck, "");
    assert stdout == Response.Encode(MicCheck, [""]);
    Response.ValuesEncode(MicCheck, [""]);
    Response.JoinedValues(stdout);
  }

  /** "Microphone check\n\n" has one empty value, so `#to_s` is "". */
  lemma JoinedEmptyLine()
    ensures Response.Joined("Microphone check\n\n") == Some("")
  {
    JoinedEmptyLineOf("Microphone check\n\n");
  }

  /** One value: `#to_s` is that value. */
  lemma JoinedOneOf(stdout: string)
    requires stdout == "Microphone check\nOne\n"
    ensures Response.Joined(stdout) == Some("One")
  {
    EncodeOne(MicCheck, "One");
    assert stdout == Response.Encode(MicCheck, ["One"]);
    Response.ValuesEncode(MicCheck, ["One"]);
    Response.JoinedValues(stdout);
  }

  /** "Microphone check\nOne\n": `#to_s` is "One". */
  lemma JoinedOne()
    ensures Response.Joined("Microphone check\nOne\n") == Some("One")
  {
    JoinedOneOf("Microphone check\nOne\n");
  }

  /** Two values: `#to_s` separates them with a comma. */
  lemma JoinedTwoOf(stdout: string)
    requires stdout == "Microphone check\nOne\nTwo\n"
    ensures Response.Joined(stdout) == Some("One,Two")
  {
    EncodeTwo(MicCheck, "One", "Two");
    assert stdout == Response.Encode(MicCheck, ["One", "Two"]);
    Response.ValuesEncode(MicCheck, ["One", "Two"]);
    Response.JoinedValues(stdout);
    JoinTwo("One", "Two");
    assert "One" + "," + "Two" == "One,Two";
  }

  /** "Microphone check\nOne\nTwo\n": `#to_s` is "One,Two". */
  lemma JoinedTwo()
    ensures Response.Joined("Microphone check\nOne\nTwo\n") == Some("One,Two")
  {
    JoinedTwoOf("Microphone check\nOne\nTwo\n");
  }

  // ---------------------------------------------------------------------
  // Ipp.query and Ipp.ipptool

  /** `Ipp.query` returns the values of the answer `ipptool` printed. */
  lemma QueryPrinterNamesOf(stdout: string)
    requires stdout == "printer-name\nOffice\nWarehouse\n"
    ensures Ipp.QueryValues("{ [IPP request] }", 0, stdout, "") == Success(["Office", "Warehouse"])
  {
    EncodeTwo("printer-name", "Office", "Warehouse");
    assert stdout == Response.Encode("printer-name", ["Office", "Warehouse"]);
    Ipp.QueryDecodesAnswer("{ [IPP request] }", 0, "printer-name", ["Office", "Warehouse"], "");
  }

  /** `Ipp.query` of the stubbed answer "printer-name\nOffice\nWarehouse\n". */
  lemma QueryPrinterNames()
    ensures Ipp.QueryValues("{ [IPP request] }", 0, "printer-name\nOffice\nWarehouse\n", "")
            == Success(["Office", "Warehouse"])
  {
    QueryPrinterNamesOf("printer-name\nOffice\nWarehouse\n");
  }

  /** The four outcomes of `Ipp.ipptool` the tests check: output on success
      is returned, empty output on success raises, the "no destinations"
      failure returns the empty output, any other failure raises. */
  lemma IpptoolExamples()
    ensures var q := Ipp.Query("/printers/Office", "{ [IPP request] }");
            Ipp.Ipptool(q, 0, "printer-location\nRoom 101\n", "") == Success("printer-location\nRoom 101\n")
    ensures var q := Ipp.Query("/printers/Office", "{ [IPP request] }");
            Ipp.Ipptool(q, 0, "", "").Failure?
    ensures var q := Ipp.Query("", "{ [IPP request] }");
            Ipp.Ipptool(q, 1, "", "No destinations added.\n") == Success("")
    ensures var q := Ipp.Query("", "{ [IPP request] }");
            Ipp.Ipptool(q, 1, "", "").Failure?
  {
  }

  // ---------------------------------------------------------------------
  // Ipp::Error

  /** The error of a failed connection names the URI, the request, stdout
      and stderr. */
  lemma MessageUnreachableServer(e: Ipp.Error)
    requires e == Ipp.Error(Ipp.Query("/things/Office", "[IPP request]"),
                            "In this case, there would be no output.\n",
                            "ipptool: Unable to connect to localhost on port 631 - Transport endpoint is not connected\n")
    ensures Contains(Ipp.Message(e), "/things/Office")
    ensures Contains(Ipp.Message(e), "[IPP request]")
    ensures Contains(Ipp.Message(e), "In this case, there would be no output.\n")
    ensures Contains(Ipp.Message(e), "ipptool: Unable to connect to localhost on port 631 - Transport endpoint is not connected\n")
  {
    Ipp.MessageDiagnoses(e);
  }

  /** The error whose stderr is `successful-ok` cites RFC 2911. */
  lemma MessageSuccessfulOk(e: Ipp.Error)
    requires e == Ipp.Error(Ipp.Query("/printers/Office", "{ [IPP request] }"), "", "successful-ok\n")
    ensures Contains(Ipp.Message(e), "RFC 2911")
  {
    Ipp.MessageDiagnoses(e);
  }
}
