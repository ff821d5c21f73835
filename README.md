# etcd binary-key cleaner: a Dafny model of the scan

The cleaner connects to an etcd cluster and fetches every key under a
hex-given prefix. It classifies each key as binary or UTF-8 text and
prints a report line for each binary key. Depending on two flags, it
then reports only, simulates deletion (`--dry`), or deletes the binary
keys (`--remove`). At the end it prints a summary of counters. This
project models the part of `clean.go` that makes decisions:

- the byte classifier `isBinary` and the key test `isBinary(key) || !utf8.Valid(key)`;
- the two value previews, `previewRawValue` and `previewUTF8`;
- the effective modes, computed from `--dry` and `--remove`;
- the scan loop, with its counters, its output and its deletes;
- the mode line and the summary.

Modules, leaf first:

- `Utf8` (utf8.dfy): strict UTF-8 as defined by the UTF8-char grammar in
  section 4 of RFC 3629. This is the language Go's `utf8.Valid` accepts.
  The module has a decoder (Go's `[]rune(string(b))`) and an encoder
  (Go's `string(runes)`). Both round trips are proved.
- `Classify` (classify.dfy): `isBinary` as a predicate, the same
  early-return loop as a method proved equal to it, and the scan's key
  test.
- `Preview` (preview.dfy): the previews as values of a `Preview`
  datatype. A preview holds the bytes that go to Go's `%q` verb and a
  flag for whether `...` follows. `Render` turns a preview into text,
  given a quoting function.
- `Modes` (modes.dfy): `modeDryRun`/`modeDelete` and the override note.
- `Output` (output.dfy): the printed lines as abstract events.
- `Scan` (scan.dfy): the store as a class whose `keys` set a delete
  shrinks. It also holds the scan as a method with loop invariants, which
  handles one entry at a time through `ScanEntry`. The method is proved
  against three specification functions: `Tally` (the counters),
  `StoreAfter` (the store's keys) and `Trace` (the printed lines). The
  lemmas about those functions are proved here too.
- `Report` (report.dfy): the summary, the whole run after the fetch
  (`Clean`), and the two scenarios: report-only and delete.

Whether a delete succeeds is decided by etcd and the network. The model
takes that answer as an input: `oks[i]` is the answer for the delete of
the i-th fetched key. The range response is the input `records`.

## Model

| member | source | states |
|---|---|---|
| `Classify.ScanForBinary` | clean.go:31-40 | the early-return loop returns true exactly when some byte is below 32 or above 126 and is none of newline, carriage return and tab; it returns false exactly when every byte is a text byte (so the empty sequence is not binary) |
| `Classify.Utf8CheckRedundant` | clean.go:149 | the key test (binary by `isBinary`, or not valid UTF-8) holds exactly when `isBinary(key)` does, because a key that passes `isBinary` is ASCII and therefore valid UTF-8; a key is text exactly when all its bytes are text bytes; the empty key is text |
| `Utf8.AsciiIsValid` | clean.go:149 | a byte sequence whose bytes are all below 0x80 is valid UTF-8 and decodes to as many code points as it has bytes |
| `Utf8.ValidAppend` | clean.go:50 | validity is decided UTF8-char by UTF8-char: after a valid prefix, the whole sequence is valid exactly when the rest is |
| `Utf8.ValidBoundaries` | clean.go:149 | the check rejects a lone continuation byte, a truncated sequence, overlong forms, an encoded surrogate and code points above U+10FFFF, and accepts U+10FFFF and U+FFFD |
| `Utf8.EncodeRune` | clean.go:55-57 | a scalar value encodes to one to four bytes, and to one byte exactly when it is ASCII |
| `Utf8.Encode` | clean.go:55-57 | encoding n code points gives between n and 4n bytes; with `DecodeEncode` and `EncodeDecode` it is the inverse of decoding |
| `Utf8.Decode` | clean.go:53 | decoding a valid sequence gives Unicode scalar values (no surrogates, nothing above U+10FFFF), no more of them than there are bytes, and at least one for a non-empty sequence |
| `Utf8.EncodeDecodeHead` | clean.go:53-57 | re-encoding the code point decoded from the head of a sequence gives back exactly the head's bytes |
| `Utf8.DecodeEncodeRune` | clean.go:53-57 | the encoding of a scalar value, followed by any bytes, is read back as that value and as a head of exactly its own length |
| `Utf8.EncodeAppend` | clean.go:55-57 | encoding distributes over concatenation of code-point sequences |
| `Utf8.EncodeDecode` | clean.go:53-57 | re-encoding the code points of a valid sequence gives the sequence back |
| `Utf8.DecodeEncode` | clean.go:55-57 | every encoding of scalar values is valid UTF-8 and decodes back to those values |
| `Utf8.DecodedPrefix` | clean.go:54-55 | the encoding of the first k code points of a valid sequence is a byte prefix of it |
| `Preview.PreviewRawValue` | clean.go:42-47 | the preview keeps a prefix of the value of length min(len, 10); `...` follows exactly when the value is longer than 10 bytes; a value of 10 bytes or fewer is shown whole |
| `Preview.PreviewUtf8` | clean.go:49-58 | the sentinel is returned exactly when the value is not valid UTF-8; otherwise the kept text is a valid byte prefix of the value and decodes to its first min(n, 10) code points; `...` follows exactly when the value has more than 10 code points; an untruncated preview is the value itself |
| `Preview.Render` | clean.go:44-57 | a sentinel preview renders as `[non-utf8]`; a quoted preview renders as the quoted bytes, followed by three more characters, `...`, exactly when it was cut |
| `Modes.EffectiveModes` | clean.go:95-101 | the run is a dry run exactly when `--dry` is given and deletes exactly when `--remove` is given without `--dry`; the two modes are never both on; the run is report-only exactly when neither flag is given |
| `Modes.OverrideNotice` | clean.go:95-97 | the override note appears exactly when `--remove` is given but no deletion will happen, and then the run is a dry run |
| `Scan.ScanEntry` | clean.go:145-177 | one entry: the counters advance by `Step`, the lines printed are `EntryEvents`, and the store loses the key exactly when it is binary, the run is in delete mode and the store accepts the delete |
| `Scan.ScanEntries` | clean.go:139-178 | the loop's counters, printed lines and store equal `Tally`, `Trace` and `StoreAfter` of the fetched entries and the delete answers |
| `Scan.Store.Delete` | clean.go:159-168 | a delete reports the store's answer, and a successful one removes exactly that key from the store |
| `Scan.TallyInvariants` | clean.go:139-178 | after the scan, total = number of entries = binary + UTF-8; dry-run and deleted counts are at most the binary count; a dry run counts every binary key as a dry-run deletion and deletes nothing; outside a dry run the dry-run count is 0; outside delete mode the deleted count is 0 |
| `Scan.TallyMonotone` | clean.go:140-171 | the counters after any prefix of the entries are at most the final counters, so no counter ever decreases |
| `Scan.TallyCounts` | clean.go:153-167 | the binary count is the number of binary keys; the deleted count is the number of binary keys whose delete succeeded in delete mode; the dry-run count is the number of binary keys in a dry run and 0 otherwise |
| `Scan.IndicesSnoc` | clean.go:149-167 | each further entry adds its own position to the binary positions if its key is binary, and to the removed positions if its delete succeeds; earlier positions are unchanged |
| `Scan.StoreAfterRemoves` | clean.go:158-168 | the store after the scan is the store before it minus the keys whose delete succeeded |
| `Scan.StoreChanges` | clean.go:155-169 | the scan only removes keys; it removes only binary keys, and only in delete mode; every binary key whose delete succeeded is gone; every text key stays |
| `Scan.DeletedMatchesStore` | clean.go:158-168 | when the entries have distinct keys that are all in the store, the deleted count equals the number of keys the scan took out of the store |
| `Scan.TraceSound` | clean.go:150-176 | every line the scan prints belongs to a fetched entry and names its key: a binary-key report carries the raw preview of that entry's value; a dry-run line only for a binary key in a dry run; a deleted line only when that key's own delete succeeded; a failed line only when its own delete failed in delete mode; a UTF-8 key report only for a text key under `--debug`, carrying the UTF-8 preview of its value |
| `Scan.DeletedLines` | clean.go:159-166 | a deleted line is printed for a key exactly when the scan deleted that key successfully |
| `Scan.TraceComplete` | clean.go:150-176 | for every entry the scan prints: the binary-key report with the raw value preview when the key is binary; the dry-run line for a binary key in a dry run; the deleted line for a successful delete; the failure line for a failed delete in delete mode; and, under `--debug`, the UTF-8 key report with the UTF-8 value preview for a text key |
| `Scan.EntryShape` | clean.go:149-176 | for one entry, a binary key's report is the first line and is followed by exactly one more line in a dry run or in delete mode and by none otherwise; a text key gets one line with `--debug` and none without |
| `Scan.TraceLength` | clean.go:149-176 | the scan prints exactly one line per binary key, one more per binary key in a dry run or in delete mode, and one per text key with `--debug`, so the trace holds no other line |
| `Scan.TraceCounts` | clean.go:149-176 | the number of binary-key reports is the binary total; of dry-run lines, the dry-run total; of deleted lines, the deleted total; of failed lines, the binary keys not deleted in delete mode; of UTF-8 key reports, the UTF-8 total with `--debug` and 0 without |
| `Scan.TracePrefix` | clean.go:145-177 | the lines for the first k entries are printed before any others, so the output follows the order of the range response |
| `Report.Summary` | clean.go:180-197 | the header and the binary, UTF-8 and total counts are always printed; the dry-run mode line and total appear exactly in a dry run; the delete mode line appears only in delete mode without a dry run; the deleted total appears exactly when the delete mode flag is on; the length rules out any other line |
| `Report.SummaryOrder` | clean.go:180-197 | in each mode the lines come in the printed order: the mode line, then the header and the binary, UTF-8 and total counts, then the dry-run total and last the deleted total |
| `Report.Clean` | clean.go:95-197 | a run prints the override note, the scan's lines and the summary, and leaves the store as `StoreAfter` under the effective modes |
| `Report.RunSummary` | clean.go:95-197 | in any run, the printed total is the number of entries and equals binary + UTF-8; the dry-run total is printed exactly with `--dry` and then equals the number of binary keys; the deleted total is printed exactly with `--remove` and no `--dry`, and then counts the binary keys whose delete succeeded; otherwise nothing is deleted |
| `Report.ReportOnlyScenario` | clean.go:139-178 | report-only on the keys 0xFF 0xFE and "hello" gives total 2, binary 1, UTF-8 1 and nothing else; it prints one line, the binary key with its whole value "abc" and no ellipsis; the store is unchanged |
| `Report.DeleteScenario` | clean.go:155-169 | in delete mode on the same keys, a successful delete gives deleted 1 and removes the key; a failed delete prints the failure, gives deleted 0 and still counts both entries |

## Left out

- TLS loading (`loadTLSConfig`) is left out. It is file reading and X.509 parsing done by library calls.
- Flag parsing, the environment defaults and the fatal exit on missing endpoints are left out. The model takes `dry`, `remove` and `debug` as parameters.
- The etcd client is not modelled: its construction, the range `Get` with its context and timeout, and a fatal exit when the fetch fails. The model's input is the fetched entries.
- Hex decoding of the prefix is left out. It only feeds the fetch, which is not modelled.
- `cli.Delete` is not modelled, nor its context and timeout. The model uses `Store.Delete` on a set of keys, with the success or failure given as an input. The error text of a failed delete is not carried.
- The exact console text is not modelled: ANSI colours, wording, `hex.EncodeToString` of keys, and Go's `%q` escaping. Output is a sequence of events. `Render` takes the quoting function as a parameter.
- Preview.Render: its contract says nothing about what the quoting function produces. It covers only the sentinel and the `...` suffix.
- `cli.Delete` returning an error is taken to mean the key was not deleted. A delete whose context times out after etcd has applied it would leave the store without the key while the model keeps it. `Scan.Store.Delete`, `Scan.DeletedMatchesStore` and the failed branch of `Report.DeleteScenario` rest on this.
- Go's `int` counters cannot overflow on any realistic range response. They are modelled as unbounded naturals.
