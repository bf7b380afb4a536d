# bench.py, modelled in Dafny

`bench.py` is a small HTTP endpoint benchmarking tool. It takes a list of host
URLs, either from a comma-separated `--hosts` argument or from a `--file` with
one host per line. It keeps the hosts that match the pattern
`^https://[\w.-]+(?:\.[\w\.-]+)+$`, and aborts if none is left. It then sends
`--count` sequential GET requests to each host. Each response is classified by
status code: 200–399 is a success and 400–599 is a failure. A transport
exception counts as an error. For each host the tool reports the counts and
the minimum, maximum and average latency.

This project models the pure logic of that pipeline. The network and the clock
become input data.

- `wrappers.dfy`, module `Wrappers`: the `Result` type that stands in for `sys.exit(1)`.
- `seqs.dfy`, module `Seqs`: order-preserving filtering, which keeps the elements
  that satisfy a predicate like the source's appending loop does. Lemmas state
  what it keeps, its order and its repetitions.
- `validation.dfy`, module `Validation`: `validate_host`. The regex is written
  out as a grammar (`DotGroups`, `HostPattern`, `FullMatch`). `RegexMatch` adds
  the `$` anchor's acceptance of one final `"\n"`. `ValidateHost` is computed
  from a simpler index form: the part after `https://` is non-empty, uses only
  `[\w.-]`, and has a `.` at neither its first nor its last position.
  `PatternIffIndexForm` proves that the grammar and the index form agree.
- `hosts.dfy`, module `Hosts`: `str.strip()`, `str.split(',')`, the validation
  loop with its warnings, and `get_hosts_from_args` with its two aborts.
- `probe.dfy`, module `Probe`: `test_host`. The loop over requests becomes a fold
  over a sequence of `Outcome`s (`Response(status, elapsed)` or
  `TransportError`). `StatsOf` is the bucket-by-bucket reference definition, and
  `TestHost` is the loop proved equal to it.
- `bench.dfy`, module `Bench`: `main`. It checks the count before anything else,
  resolves the hosts, and runs one probe per valid host. The network is an
  oracle `(host index, attempt index) -> Outcome`.

Three properties of the code that a reader might assume, but that do not hold:

- The three counters need not add up to `count`. A response whose status is
  outside [200, 600) lands in no counter, so `success + failed + errors <= count`,
  with equality exactly when every received status is in [200, 600); see
  `Probe.StatsOf` and `Probe.UnbucketedNone`.
- Every response adds a latency sample, whatever its status, so the samples
  number `count - errors`, which can exceed `success + failed`; see
  `Probe.SamplesLength`.
- The average need not lie between the minimum and the maximum. `Probe.Mean`,
  `Probe.Summarize` and `Probe.StatsOf` prove `min <= avg <= max` over exact
  reals only. With IEEE doubles, as in the program, times `[0.1, 0.1, 0.1]` sum
  to `0.30000000000000004`, so the average `0.10000000000000002` is above the
  maximum. Times `[0.7, 0.7, 0.7]` sum to `2.0999999999999996`, so the average
  `0.6999999999999998` is below the minimum.

Modelling choices:

- `\w` is the ASCII class `[A-Za-z0-9_]`. Python 3's `\w` on `str` patterns also
  matches non-ASCII letters and digits.
- Python's `$` is modelled exactly. Without `re.MULTILINE`, `$` also matches
  just before one trailing `"\n"`, so `"https://example.com\n"` is accepted.
  This can only happen through `--hosts`, because file lines are stripped first.
- The pattern accepts hosts made only of dots, such as `"https://..."`
  (`Validation.PatternQuirks`).
- `str.strip()` removes exactly the characters for which Python's `str.isspace`
  is true (`Hosts.IsSpace`).
- Elapsed times are exact `real`s, not IEEE doubles. When there are no samples,
  the latency fields are `0.0`; Python returns the integer `0`.

## Model

| member | source | states |
|---|---|---|
| `Validation.DotGroupsChars` | bench.py:19 | The group `(?:\.[\w.-]+)+` matches a string iff the string has length at least 2, starts with `.`, and uses only `[\w.-]`. |
| `Validation.PatternIffIndexForm` | bench.py:19 | `[\w.-]+(?:\.[\w.-]+)+` matches R iff R is non-empty, uses only `[\w.-]`, and has a `.` at some index i with 1 <= i <= \|R\|-2. |
| `Validation.FullMatchIffIndexForm` | bench.py:19 | The whole URL matches scheme plus pattern iff it starts with `https://` and the remainder has the index form. |
| `Validation.NoFullMatchWithNewline` | bench.py:19 | A string ending in `"\n"` never matches the pattern in full. |
| `Validation.ValidateHost` | bench.py:18-19 | With `\w` read as the ASCII class, returns true exactly when `re.match` succeeds, counting the one trailing `"\n"` that `$` tolerates. An accepted URL starts with `https://` and its remainder has an interior dot. |
| `Validation.RejectsExamples` | bench.py:19 | `"http://example.com"` (wrong scheme) and `"https://localhost"` (no dot) do not match. |
| `Validation.AcceptsExamples` | bench.py:19 | `"https://example.com"` and `"https://a.b.c"` match. |
| `Validation.NewlineExamples` | bench.py:19 | `"https://example.com\n"` is accepted because `$` matches before one final newline; `"https://example.com\n\n"` is refused. |
| `Validation.PatternQuirks` | bench.py:19 | A trailing `/` is refused. `"https://..."` is accepted. |
| `Seqs.FilterSpec` | bench.py:32-37 | The kept hosts all pass the predicate and come from the input. They form a subsequence of the input. Every input element that passes is present. The result is empty iff no input element passes. |
| `Seqs.FilterOccurrences` | bench.py:32-37 | Duplicates are kept: a passing value occurs in the result exactly as often as in the input, and a failing value does not occur. |
| `Seqs.FilterAppend` | bench.py:33-37 | Filtering a list extended by one host appends that host iff it passes. This is one step of the appending loop. |
| `Seqs.FilterSplitsLength` | bench.py:33-37 | Every host goes either to the valid list or to the rejected list, never both: the two lengths add up to the input length. |
| `Hosts.SkipSpace` | bench.py:25 | The index where leading whitespace ends: everything before it is whitespace, and the character at it is not. |
| `Hosts.SkipSpaceBack` | bench.py:25 | The index where trailing whitespace starts: everything from it on is whitespace, and the character before it is not. |
| `Hosts.Strip` | bench.py:25 | `line.strip()` is empty iff the line is all whitespace. Otherwise it neither starts nor ends with whitespace. |
| `Hosts.StripIsSlice` | bench.py:25 | `line.strip()` is a slice of the line with an all-whitespace prefix before it and an all-whitespace suffix after it. |
| `Hosts.FileHosts` | bench.py:25 | Reading a file yields at most one host per line. |
| `Hosts.FileHostsStripped` | bench.py:25 | Every host read from a file is non-empty, has no surrounding whitespace, and is the strip of one of the lines. |
| `Hosts.StripLines` | bench.py:25 | One stripped line per file line, in order. |
| `Hosts.FileHostsIsFilter` | bench.py:25 | The comprehension equals filtering the stripped lines for non-empty ones, so with `Seqs.FilterSpec` and `Seqs.FilterOccurrences` the file's hosts keep the lines' order and each non-empty strip as often as it occurs. |
| `Hosts.FileHostsCover` | bench.py:25 | The strip of every line that is not all whitespace is among the hosts. |
| `Hosts.SplitComma` | bench.py:30 | `split(',')` returns at least one piece. No piece contains a comma, and joining the pieces with `,` gives back the argument. |
| `Hosts.SplitCommaFreePrefix` | bench.py:30 | A comma-free prefix extends the first piece of the split and changes nothing else. |
| `Hosts.SplitJoin` | bench.py:30 | Splitting is the inverse of joining comma-free pieces, so the split is the only comma-free decomposition. |
| `Hosts.SelectHosts` | bench.py:32-37 | The validation loop: the valid list holds exactly the hosts that pass `validate_host`, the warnings hold exactly those that fail, both in input order (with `Seqs.FilterSplitsLength`, the two lists together account for every input host). |
| `Hosts.GetHosts` | bench.py:21-43 | The result is a file-read abort iff the file is unreadable, and the no-valid-hosts abort iff no raw host passes validation. Otherwise it is a non-empty list equal to the raw list filtered by `validate_host`: only valid hosts, in raw order, and with `Seqs.FilterOccurrences` every valid raw host as often as it occurs. |
| `Probe.CountAppend` | bench.py:56-59 | One more attempt raises exactly its own bucket's counter by one. |
| `Probe.SamplesAppend` | bench.py:61 | One more attempt appends its elapsed time iff it received a response. |
| `Probe.CountPartition` | bench.py:56-64 | Every attempt is in exactly one of success, failed, out-of-range status, or error. |
| `Probe.SamplesLength` | bench.py:56-61 | There is one latency sample per attempt that got a response, including statuses outside 200–599. |
| `Probe.UnbucketedNone` | bench.py:56-59 | No attempt falls outside the counters iff every received status is in [200, 600). |
| `Probe.Min` | bench.py:71 | `min(times)` is an element of the samples and at most every sample. |
| `Probe.Max` | bench.py:72 | `max(times)` is an element of the samples and at least every sample. |
| `Probe.TimesIsProduct` | bench.py:73 | Proof helper for `Probe.Mean`, not program behaviour: adding x to itself n times gives n·x. |
| `Probe.SumBounds` | bench.py:73 | Proof helper for `Probe.Mean`, not program behaviour: samples bounded by lo and hi add up to between \|xs\|·lo and \|xs\|·hi. |
| `Probe.MeanBetween` | bench.py:73 | Proof helper for `Probe.Mean`, not program behaviour: a total between n·lo and n·hi divided by n lies between lo and hi. |
| `Probe.Mean` | bench.py:73 | Over exact reals, the average lies between the minimum and the maximum sample. This need not hold for the program's floats. |
| `Probe.Summarize` | bench.py:71-73 | With no samples, min = max = avg = 0. Otherwise min and max are samples that bound every sample, avg = sum/len, and, over exact reals, min <= avg <= max. |
| `Probe.StatsOf` | bench.py:46-74 | success + failed + errors <= count, with equality iff every received status is in [200, 600). The sample count is count − errors. Latency is all zero without samples, and otherwise, over exact reals, min <= avg <= max. |
| `Probe.TestHost` | bench.py:46-74 | The request loop computes exactly the bucket-by-bucket statistics: success counts statuses in [200, 400), failed counts [400, 600), errors counts transport exceptions, and latency is over the responses' elapsed times. |
| `Probe.AllErrorsCounts` | bench.py:56-64 | When every attempt raises, no attempt succeeds or fails, each is one error, and no latency sample is taken. |
| `Probe.AllErrors` | bench.py:46-74 | A host whose every attempt raises reports success = failed = 0, errors = the attempt count, and min = max = avg = 0. |
| `Probe.AllOkExample` | bench.py:46-74 | Three 200 responses with positive timings give success = 3, failed = errors = 0, and 0 < min <= avg <= max. |
| `Bench.Run` | bench.py:87-99 | A non-positive count aborts, whatever the source and the network. A host-resolution failure aborts with that error. With a positive count, the run ends in a report exactly when the hosts resolve, with one entry per valid host, in order, each equal to the host's statistics over its `count` attempts. Host k's attempts are `Attempts(network, k, count)`: the oracle's answers in attempt order (bench.py:50-54). |

## Left out

- Argument parsing (bench.py:7-16) is replaced by the tagged variant `HostSource`. With `--file ""`, the source's `if args.file:` falls through to `args.hosts.split(',')` on `None`, which raises `AttributeError`. The variant does not model that crash.
- Opening and reading the hosts file (bench.py:23-28) is I/O. The model receives the lines that iterating the file yields, or `Unreadable`. The exception text that the source prints is not modelled.
- `requests.get`, `RequestException` and `time.time()` (bench.py:52-54, 63) are the network and the clock. Each attempt is an input `Outcome`. An exception that is not a `RequestException` would escape `test_host` in the source; the model has no such outcome.
- `format_stats`, the `'\n'.join` of the report, and writing the output file (bench.py:76-85, 101-111) are output formatting and I/O. The `:.3f` rounding is float formatting.
- `print` and `sys.exit(1)` are side effects. They become `Result`/`RunResult` values and the `warnings` list of `Hosts.SelectHosts`.
- Floating point is not modelled. Timings, sums and the average are exact reals, so the `min <= avg <= max` bound of `Probe.Mean`, `Probe.Summarize` and `Probe.StatsOf` is a fact about exact reals. The program's float average can fall outside `[min, max]`; the counterexamples are given above.
- Python 3's Unicode-aware `\w` is not modelled; `Validation.IsWordChar` is the ASCII class.
