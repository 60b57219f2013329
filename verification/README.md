# IPP helpers of puppet-cups, modelled in Dafny

The `cups_queue` Puppet type asks the CUPS print server for queue attributes.
It does so through `PuppetX::Cups::Ipp`, a thin wrapper around the `ipptool`
command-line IPP client. This project models that wrapper as pure functions
and proves the behaviour its unit tests (`spec/unit/puppet_x/cups/ipp_spec.rb`)
require:

- `Ipp::Query` is a resource URI plus the request text for `ipptool`
  (`Ipp.Query`).
- `Ipp.ipptool` decides, from `ipptool`'s exit status, stdout and stderr,
  whether the call returns stdout or raises `Ipp::Error` (`Ipp.Ipptool`).
  - Exit status 0 with output returns stdout.
  - Exit status 0 without output raises.
  - A non-zero exit status returns stdout only when stderr is exactly
    `"No destinations added.\n"`, and raises otherwise.
- `Ipp.query(request)` is the parsed values of `ipptool`'s answer (`Ipp.QueryValues`).
- `Ipp::Response#to_a` drops the header line `ipptool` prints and returns
  every later line, without its line break (`Response.Values`).
  - A final line break does not open an empty value.
  - An explicitly empty line is the value `""`.
- `Ipp::Response#to_s` is the comma join of those values, or `nil` when
  there are none (`Response.Joined`).
- `Ipp::Error#message` names the URI, the request, stdout and stderr
  (`Ipp.Message`). When stderr is exactly `"successful-ok\n"` it also cites
  RFC 2911. `successful-ok` is the IPP/1.1 status code of section 13.1.2.1
  of RFC 2911.

Each general property is paired with an inverse or a characterisation:

- `Response.Values` is the inverse of `Response.Encode`, which writes a
  header and values one per line. Both directions are proved.
- `Response.Joined` is inverted by `Text.Split` on commas when no value holds
  a comma.
- `Ipp.Ipptool` is characterised by an if-and-only-if lemma.
- Each test case is a lemma of `IppExamples`. The parsing and message cases
  are proved from the general lemmas. The `ipptool` cases follow directly
  from the definition of `Ipp.Ipptool`.

Files:

- `wrappers.dfy`: `Option` (Ruby's `nil`) and `Result` (return or raise).
- `text.dfy`: split, join and substring containment on strings, with their
  inverse and containment lemmas.
- `response.dfy`: `Ipp::Response`.
- `ipp.dfy`: `Ipp::Query`, `Ipp::Error`, `Ipp.ipptool` and `Ipp.query`.
- `ipp_examples.dfy`: the unit tests' cases.

The implementation file `lib/puppet_x/cups/ipp.rb` is not part of this
model. The model follows the behaviour its unit tests fix. Where the tests
leave a choice open, "## Left out" names the choice the model makes.

## Model

| member | source | states |
|---|---|---|
| Response.Lines | spec/unit/puppet_x/cups/ipp_spec.rb:77-89 | the lines of a text hold no line break, and a text has no lines exactly when it is empty |
| Response.Values | spec/unit/puppet_x/cups/ipp_spec.rb:76-103 | no value returned by `#to_a` contains a line break |
| Response.ValuesEncode | spec/unit/puppet_x/cups/ipp_spec.rb:76-103 | for a header and values without line breaks, `#to_a` of "header, then one line per value" is exactly those values, in order, and the header line is recovered |
| Response.EncodeValues | spec/unit/puppet_x/cups/ipp_spec.rb:76-103 | every output that contains a line break and ends with one is re-created exactly from its header and its `#to_a`, so parsing drops nothing but the header |
| Response.Encode | spec/unit/puppet_x/cups/ipp_spec.rb:77-101 | the output written for a header and values starts with the header line and ends with a line break |
| Response.Joined | spec/unit/puppet_x/cups/ipp_spec.rb:106-134 | `#to_s` is `nil` exactly when `#to_a` is empty, and splitting it on commas gives `#to_a` back when no value holds a comma |
| Response.JoinedValues | spec/unit/puppet_x/cups/ipp_spec.rb:106-134 | a present `#to_s` is the comma join of `#to_a` |
| Ipp.Ipptool | spec/unit/puppet_x/cups/ipp_spec.rb:16-72 | a returned value is stdout unchanged; a success after exit status 0 has non-empty stdout; a success after a non-zero exit has the "No destinations added." stderr; a raised error carries the query, stdout and stderr |
| Ipp.IpptoolSucceedsIff | spec/unit/puppet_x/cups/ipp_spec.rb:20-72 | `ipptool` returns exactly when it exits with 0 and prints something, or exits non-zero with stderr "No destinations added.\n" |
| Ipp.IpptoolEmptySuccessIsError | spec/unit/puppet_x/cups/ipp_spec.rb:34-46 | exit status 0 with empty stdout raises, whatever stderr holds |
| Ipp.QueryValues | spec/unit/puppet_x/cups/ipp_spec.rb:5-14 | `Ipp.query` yields values free of line breaks, or an error naming the query it sent |
| Ipp.QueryNoDestinations | spec/unit/puppet_x/cups/ipp_spec.rb:49-60 | a query that exits non-zero with stderr "No destinations added.\n" and prints nothing yields no values, not an error |
| Ipp.QueryDecodesAnswer | spec/unit/puppet_x/cups/ipp_spec.rb:5-14 | when `ipptool` returns an answer made of a header and values, `Ipp.query` yields exactly those values |
| Ipp.Message | spec/unit/puppet_x/cups/ipp_spec.rb:140-149 | the error message contains the query URI, the request, stdout and stderr |
| Ipp.MessageDiagnoses | spec/unit/puppet_x/cups/ipp_spec.rb:137-158 | the error message contains the query URI, the request, stdout and stderr, and contains "RFC 2911" when stderr is "successful-ok\n" |
| Ipp.MessageCitesRfcIff | spec/unit/puppet_x/cups/ipp_spec.rb:150-158 | when none of the diagnostics mentions RFC 2911, the message cites it if and only if stderr is "successful-ok\n" |
| IppExamples.ValuesHeaderOnly | spec/unit/puppet_x/cups/ipp_spec.rb:77-82 | `#to_a` of "Microphone check\n" is [] |
| IppExamples.ValuesEmptyLine | spec/unit/puppet_x/cups/ipp_spec.rb:84-89 | `#to_a` of "Microphone check\n\n" is [""] |
| IppExamples.ValuesOne | spec/unit/puppet_x/cups/ipp_spec.rb:91-96 | `#to_a` of "Microphone check\nOne\n" is ["One"] |
| IppExamples.ValuesTwo | spec/unit/puppet_x/cups/ipp_spec.rb:98-103 | `#to_a` of "Microphone check\nOne\nTwo\n" is ["One", "Two"], in that order |
| IppExamples.JoinedHeaderOnly | spec/unit/puppet_x/cups/ipp_spec.rb:107-112 | `#to_s` of "Microphone check\n" is `nil` |
| IppExamples.JoinedEmptyLine | spec/unit/puppet_x/cups/ipp_spec.rb:114-119 | `#to_s` of "Microphone check\n\n" is "" |
| IppExamples.JoinedOne | spec/unit/puppet_x/cups/ipp_spec.rb:121-126 | `#to_s` of "Microphone check\nOne\n" is "One" |
| IppExamples.JoinedTwo | spec/unit/puppet_x/cups/ipp_spec.rb:128-133 | `#to_s` of "Microphone check\nOne\nTwo\n" is "One,Two" |
| IppExamples.QueryPrinterNames | spec/unit/puppet_x/cups/ipp_spec.rb:6-13 | `Ipp.query` of the answer "printer-name\nOffice\nWarehouse\n" is ["Office", "Warehouse"] |
| IppExamples.IpptoolExamples | spec/unit/puppet_x/cups/ipp_spec.rb:20-72 | the four tested outcomes of `Ipp.ipptool`: output returned, empty output raised, "No destinations added." returns empty stdout, other failures raised |
| IppExamples.MessageUnreachableServer | spec/unit/puppet_x/cups/ipp_spec.rb:140-149 | the message for the failed connection contains its URI, request, stdout and stderr |
| IppExamples.MessageSuccessfulOk | spec/unit/puppet_x/cups/ipp_spec.rb:152-158 | the message for stderr "successful-ok\n" contains "RFC 2911" |

## Left out

- `lib/puppet_x/cups/ipp.rb` is not part of this model. The model follows the behaviour its unit tests state.
- Running `ipptool` (`Open3.capture3`, its command-line switches, however the request is handed to `ipptool`) is I/O. The exit status, stdout and stderr are parameters of `Ipp.Ipptool` and `Ipp.QueryValues`.
- `Process::Status#exitstatus` is `nil` for a process killed by a signal. The model takes the exit status as an integer and does not model that case.
- The unit tests do not pin exit status 0 with empty stdout and stderr "No destinations added.\n". The model checks the exit status first, so this case raises.
- The model sends `Ipp.query` to the server root `/` (`Ipp.ServerRoot`). The tests do not fix this URI, because the test of `Ipp.query` stubs `ipptool`.
- The wording of `Ipp::Error#message` is the model's own. The tests check only which substrings it contains.
- The tests match the message against regular expressions built from the diagnostics. The model proves plain substring containment, which implies those matches.
- The tests compare `#to_a` with `match_array`, which ignores order. The model proves the exact order.
- Response.Lines: an unterminated last line is kept as a value, so `#to_a` of "h\nOne" is ["One"]. Output without a line break after the header gives []. The tests only parse output that ends with a line break, so they do not fix these cases.
- Line breaks are `"\n"` only. A carriage return before a line break stays part of the value.
- The queue snapshot and the reconciliation of a queue's desired and actual properties are not modelled. Their implementation is not part of this model.
- The acceptance tests of the `cups_queue` type are not modelled. They drive a live CUPS server and observe it end to end.
