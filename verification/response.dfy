/** `PuppetX::Cups::Ipp::Response`: the text `ipptool` prints is one header
    line followed by one line per attribute value. `Values` is `#to_a`,
    `Joined` is `#to_s`. */
module Response {
  import opened Wrappers
  import opened Text

  /** The line break that ends every line of `ipptool` output. */
  const LineBreak: char := '\n'

  /** The separator `#to_s` puts between values. */
  const Comma: char := ','

  /** The lines of `text` without their line breaks. A final line break ends
      the last line rather than opening an empty one; an unterminated last
      line still counts. */
  function Lines(text: string): (r: seq<string>)
    ensures forall i :: 0 <= i < |r| ==> LineBreak !in r[i]
    ensures text == "" <==> r == []
  {
    var pieces := Split(text, LineBreak);
    if pieces[|pieces| - 1] == "" then
      assert text == "" ==> pieces == [""];
      assert pieces == [""] ==> text == "" by {
        if pieces == [""] { JoinSplit(text, LineBreak); }
      }
      pieces[..|pieces| - 1]
    else pieces
  }

  /** `Response#to_a`: every line after the header, in order, without its
      line break. */
  function Values(stdout: string): (r: seq<string>)
    ensures forall i :: 0 <= i < |r| ==> LineBreak !in r[i]
  {
    var lines := Lines(stdout);
    if |lines| == 0 then [] else lines[1..]
  }

  /** `Response#to_s`: the values joined by commas, or `nil` when there are none. */
  function Joined(stdout: string): (r: Option<string>)
    ensures r.None? <==> Values(stdout) == []
    ensures r.Some? && (forall i :: 0 <= i < |Values(stdout)| ==> Comma !in Values(stdout)[i]) ==>
              Split(r.value, Comma) == Values(stdout)
  {
    var values := Values(stdout);
    if |values| == 0 then None
    else
      var joined := Join(values, Comma);
      assert (forall i :: 0 <= i < |values| ==> Comma !in values[i]) ==> Split(joined, Comma) == values by {
        if forall i :: 0 <= i < |values| ==> Comma !in values[i] { SplitJoin(values, Comma); }
      }
      Some(joined)
  }

  /** The output `ipptool` prints for a header and a list of values: the
      header and each value on a line of its own. */
  function Encode(header: string, values: seq<string>): (r: string)
    ensures |r| > |header| && r[..|header|] == header && r[|header|] == LineBreak
    ensures r[|r| - 1] == LineBreak
  {
    Terminated([header] + values, LineBreak)
  }

  /** The header line of an output (empty for empty output). */
  function Header(stdout: string): (r: string)
  {
    var lines := Lines(stdout);
    if |lines| == 0 then "" else lines[0]
  }

  // ---------------------------------------------------------------------
  // Values and Encode are inverse to each other

  /** Parsing the output for a header and values gives back exactly the
      values, in order, as long as no line contains a line break. */
  lemma ValuesEncode(header: string, values: seq<string>)
    requires LineBreak !in header
    requires forall i :: 0 <= i < |values| ==> LineBreak !in values[i]
    ensures Values(Encode(header, values)) == values
    ensures Header(Encode(header, values)) == header
  {
    var lines := [header] + values;
    TerminatedIsJoin(lines, LineBreak);
    assert forall i :: 0 <= i < |lines + [""]| ==> LineBreak !in (lines + [""])[i];
    SplitJoin(lines + [""], LineBreak);
    assert (lines + [""])[..|lines|] == lines;
    assert lines[1..] == values;
  }

  /** Every output that contains a line break and ends with one is the
      encoding of its header and its values: parsing loses nothing. */
  lemma EncodeValues(stdout: string)
    requires LineBreak in stdout
    requires stdout[|stdout| - 1] == LineBreak
    ensures Encode(Header(stdout), Values(stdout)) == stdout
  {
    var pieces := Split(stdout, LineBreak);
    SplitEndsWithSep(stdout, LineBreak);
    var lines := pieces[..|pieces| - 1];
    assert Lines(stdout) == lines;
    assert pieces == lines + [""];
    JoinSplit(stdout, LineBreak);
    TerminatedIsJoin(lines, LineBreak);
    assert [lines[0]] + lines[1..] == lines;
  }

  // ---------------------------------------------------------------------
  // Joined

  /** A present `#to_s` is the comma join of `#to_a`. */
  lemma JoinedValues(stdout: string)
    ensures Joined(stdout).Some? ==> Joined(stdout).value == Join(Values(stdout), Comma)
  {
  }
}
