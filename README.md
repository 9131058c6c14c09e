# Subdomain finder, modelled in Dafny

A model of the threaded subdomain finder in `subdomain_finder/src/subdomain_finder.py`, with proofs
about it. The finder loads a wordlist of labels and normalises the target domain. For each label it
resolves `label.target` once. When the lookup gives a non-empty address and probing is on, it then
fetches `http://label.target/` once. It yields
one record per label that resolved, in the order the worker threads finish. The command line exits
with 2 when the wordlist file is missing and with 0 otherwise.

Files:

- `wrappers.dfy` (module `Wrappers`): `Option` for Python's `None`, `Result` for an operation that raises.
- `pystr.dfy` (module `PyStr`): the Python string built-ins the finder uses, over `seq<char>`:
  - `strip()`, `rstrip('.')`, with `str.isspace()`'s exact character set;
  - `lower()`, ASCII letters only;
  - `splitlines()`, with its exact line boundaries and "\r\n" counted as one boundary.
- `subdomain_finder.dfy` (module `SubdomainFinder`):
  - `load_wordlist` on the decoded file text;
  - the target normalisation and the candidate hostname;
  - `resolve_host`, `probe_http` and the per-label `check`;
  - `find_subdomains`, as a loop that takes the checks in an arbitrary completion order;
  - `main` after argument parsing, as far as the exit code and the collected records go.

DNS and HTTP are oracles, held as fields of a `Network` value:

- `gethostbyname`: hostname → `Returned(address)` or `Raised`;
- `httpGet`: URL → `Returned(status)` or `Raised`.

Each call site catches every exception, so `Raised` stands for any exception.

The thread pool is modelled by its observable behaviour:

- every label is checked exactly once;
- records arrive in an order the model leaves open: each loop step picks *some* pending label with `:|`;
- `ThreadPoolExecutor` refuses a worker count that is not positive with `ValueError`, and `main` does
  not catch it.

`resolve_host` makes exactly one `socket.gethostbyname` call and turns any exception into `None`;
nothing is retried. `Check` reads the oracle only at the candidate hostname, and
`CheckConsultsOnlyCandidate` states that this one answer decides the record.

## Model

| member | source | states |
|---|---|---|
| PyStr.Strip | subdomain_finder/src/subdomain_finder.py:27 | `line.strip()` is the slice of the line after its leading whitespace; only whitespace follows it; it neither starts nor ends with whitespace |
| PyStr.LStrip | subdomain_finder/src/subdomain_finder.py:27 | the suffix left after the leading run of the class; everything cut belongs to the class; the rest does not start with it |
| PyStr.RStrip | subdomain_finder/src/subdomain_finder.py:53 | `rstrip('.')` is a prefix of its input; everything cut is a dot; the rest does not end with a dot |
| PyStr.StripTrimmed | subdomain_finder/src/subdomain_finder.py:27 | a string with no whitespace at either end strips to itself |
| PyStr.StripExact | subdomain_finder/src/subdomain_finder.py:27 | runs of whitespace around a trimmed middle strip to exactly that middle |
| PyStr.LStripExact | subdomain_finder/src/subdomain_finder.py:27 | a run of the class before a part that does not start with it lstrips to that part |
| PyStr.RStripExact | subdomain_finder/src/subdomain_finder.py:53 | a run of dots after a part that does not end in a dot rstrips to that part |
| PyStr.StripIdempotent | subdomain_finder/src/subdomain_finder.py:27 | stripping twice is stripping once |
| PyStr.Lower | subdomain_finder/src/subdomain_finder.py:53 | `lower()` keeps the length, leaves no upper-case letter, keeps every other character, and maps each upper-case letter to the lower-case one 32 code points above |
| PyStr.LowerKeepsClasses | subdomain_finder/src/subdomain_finder.py:53 | lower-casing neither creates nor removes whitespace or dots |
| PyStr.LowerNoUpper | subdomain_finder/src/subdomain_finder.py:53 | a string without upper-case letters is its own `lower()` |
| PyStr.BreakIndex | subdomain_finder/src/subdomain_finder.py:27 | the first line of a text has no line boundary, and the character after it is one |
| PyStr.SplitLines | subdomain_finder/src/subdomain_finder.py:27 | `splitlines()` gives no more lines than characters, and no line contains a line boundary |
| PyStr.SplitLinesOneLine | subdomain_finder/src/subdomain_finder.py:27 | a non-empty text without a line boundary is one line, so a last line needs no final boundary |
| PyStr.SplitLinesStep | subdomain_finder/src/subdomain_finder.py:27 | a line ended by one boundary character (other than a "\r" followed by "\n") is the first line, and the rest of the text is split on its own |
| PyStr.SplitLinesCrLf | subdomain_finder/src/subdomain_finder.py:27 | a line ended by "\r\n" is the first line, and no empty line follows it |
| PyStr.SplitLinesExample | subdomain_finder/src/subdomain_finder.py:27 | "a\rb\r\nc" splits into ["a", "b", "c"] |
| PyStr.SplitLinesCrLfExample | subdomain_finder/src/subdomain_finder.py:27 | "b\r\nc" splits into ["b", "c"] |
| PyStr.BreakIndexAt | subdomain_finder/src/subdomain_finder.py:27 | a break-free line followed by a boundary ends exactly there |
| PyStr.SplitJoinLines | subdomain_finder/src/subdomain_finder.py:27 | break-free lines written one per line split back into exactly those lines |
| SubdomainFinder.IsComment | subdomain_finder/src/subdomain_finder.py:27 | `line.startswith("#")`, on the line as read, before any stripping |
| SubdomainFinder.IsLabelLine | subdomain_finder/src/subdomain_finder.py:27 | the comprehension's filter: the stripped line is non-empty and the raw line is not a comment; a line that passes strips to a trimmed label |
| SubdomainFinder.SelectLabels | subdomain_finder/src/subdomain_finder.py:27 | the comprehension keeps at most one label per line, and every label is non-empty with no whitespace at either end |
| SubdomainFinder.LoadWordlist | subdomain_finder/src/subdomain_finder.py:25-27 | at most one label per line of the text; every label is non-empty, trimmed and free of line boundaries |
| SubdomainFinder.StripKeepsNoBreak | subdomain_finder/src/subdomain_finder.py:27 | stripping a break-free line leaves it break-free |
| SubdomainFinder.SelectLabelsMembers | subdomain_finder/src/subdomain_finder.py:27 | a string is selected if and only if some line that is non-blank and not `#`-prefixed strips to it |
| SubdomainFinder.SelectLabelsAppend | subdomain_finder/src/subdomain_finder.py:27 | file order is kept: the labels of two stretches of lines are those of the first followed by those of the second |
| SubdomainFinder.LoadWordlistMembers | subdomain_finder/src/subdomain_finder.py:25-27 | a label is loaded if and only if some line of the text, non-blank and not `#`-prefixed as read, strips to it |
| SubdomainFinder.LoadWordlistRoundTrip | subdomain_finder/src/subdomain_finder.py:25-27 | trimmed, uncommented, single-line labels written one per line load back unchanged and in order |
| SubdomainFinder.SelectTrimmedLines | subdomain_finder/src/subdomain_finder.py:27 | lines that are already trimmed, uncommented labels are all kept, unchanged |
| SubdomainFinder.LoadWordlistOfLines | subdomain_finder/src/subdomain_finder.py:25-27 | loading break-free lines written one per line selects from exactly those lines |
| SubdomainFinder.SelectLabelsSkipsComment | subdomain_finder/src/subdomain_finder.py:27 | a `#` line contributes nothing; the labels around it are kept in order |
| SubdomainFinder.LoadWordlistSkipsComment | subdomain_finder/src/subdomain_finder.py:25-27 | a comment line between clean label lines is dropped and everything else loads back in order |
| SubdomainFinder.LoadWordlistExample | subdomain_finder/tests/test_subdomain_finder.py:9-13 | "a\nb\n#comment\nc\n" loads as ["a", "b", "c"] |
| SubdomainFinder.LoadWordlistIndentedHash | subdomain_finder/src/subdomain_finder.py:27 | the comment test looks at the raw line, so "  #x" is kept, as "#x" |
| SubdomainFinder.StripIndentedHash | subdomain_finder/src/subdomain_finder.py:27 | "  #x" strips to "#x" |
| SubdomainFinder.NormalizeTarget | subdomain_finder/src/subdomain_finder.py:53 | the normalised target has no upper-case letter, no trailing dot and no leading whitespace; it is a prefix of the lowered, stripped target, and only dots were cut from it |
| SubdomainFinder.LowerThenRStrip | subdomain_finder/src/subdomain_finder.py:53 | lower-casing and then cutting trailing dots leaves no upper-case letter and brings no whitespace to the front |
| SubdomainFinder.NormalizeTrimmedTarget | subdomain_finder/src/subdomain_finder.py:53 | on a trimmed target without upper-case letters, normalising only cuts the trailing dots |
| SubdomainFinder.NormalizeTargetFixed | subdomain_finder/src/subdomain_finder.py:53 | a target already in normal form is left unchanged |
| SubdomainFinder.NormalizeTargetIdempotent | subdomain_finder/src/subdomain_finder.py:53 | normalising twice is normalising once, unless the cut dots hid trailing whitespace |
| SubdomainFinder.NormalizeTargetDropsAllDots | subdomain_finder/src/subdomain_finder.py:53 | every trailing dot goes, not only the last: "name..." normalises to "name" |
| SubdomainFinder.NormalizeDotted | subdomain_finder/src/subdomain_finder.py:53 | a name that starts without whitespace and ends without a dot, followed by dots, normalises to the name |
| SubdomainFinder.NormalizeTargetKeepsSpaceBeforeDots | subdomain_finder/src/subdomain_finder.py:53 | whitespace hidden before the trailing dots survives ("ab ." gives "ab "), and a second pass removes it |
| SubdomainFinder.NormalizeTargetDropsSpace | subdomain_finder/src/subdomain_finder.py:53 | a name followed by whitespace normalises to the name |
| SubdomainFinder.Candidate | subdomain_finder/src/subdomain_finder.py:56 | the candidate hostname is the label, one dot and the target, in that order |
| SubdomainFinder.CandidateInjective | subdomain_finder/src/subdomain_finder.py:56 | for one target, different labels give different candidate hostnames |
| SubdomainFinder.ResolveHost | subdomain_finder/src/subdomain_finder.py:30-36 | `None` if and only if the lookup raised; otherwise exactly the address it answered |
| SubdomainFinder.ResolveHostExample | subdomain_finder/tests/test_subdomain_finder.py:16-25 | with the test's mock, "exists.example.com" resolves to "1.2.3.4" and "nope.example.com" to `None` |
| SubdomainFinder.ProbeUrl | subdomain_finder/src/subdomain_finder.py:40 | the probed URL is "http://", the host, and one "/" |
| SubdomainFinder.IsTruthy | subdomain_finder/src/subdomain_finder.py:58 | Python truthiness of the resolver's answer: `None` and the empty string are false, any other string is true |
| SubdomainFinder.ProbeHttp | subdomain_finder/src/subdomain_finder.py:39-45 | `None` if and only if the GET of `http://host/` raised; otherwise its status code, whatever that code is |
| SubdomainFinder.Check | subdomain_finder/src/subdomain_finder.py:55-63 | no record if and only if the lookup raised or answered the empty string; otherwise the record names the candidate hostname, carries the answer as its address, has no status when probing is off, and when probing is on has exactly the prober's result: the GET's status code, or no status if the GET raised |
| SubdomainFinder.CheckIgnoresHttpWhenOff | subdomain_finder/src/subdomain_finder.py:60-62 | with probing off, the HTTP client never affects the record |
| SubdomainFinder.CheckConsultsOnlyCandidate | subdomain_finder/src/subdomain_finder.py:55-63 | one lookup, of the candidate hostname only, and at most one GET, of its URL, decide the record |
| SubdomainFinder.CheckDeterminesLabel | subdomain_finder/src/subdomain_finder.py:56 | two labels whose records name the same subdomain are the same label |
| SubdomainFinder.Found | subdomain_finder/src/subdomain_finder.py:65-70 | at most one record per label, and every record has a non-empty address |
| SubdomainFinder.FoundAppend | subdomain_finder/src/subdomain_finder.py:66-70 | the records of two stretches of labels are the records of each |
| SubdomainFinder.FoundMembers | subdomain_finder/src/subdomain_finder.py:66-70 | a record is found if and only if some label's check gives it |
| SubdomainFinder.FoundDistinct | subdomain_finder/src/subdomain_finder.py:66-70 | distinct labels give distinct records |
| SubdomainFinder.FoundRemove | subdomain_finder/src/subdomain_finder.py:67-70 | taking one label out takes out exactly its record, if it has one |
| SubdomainFinder.FindSubdomains | subdomain_finder/src/subdomain_finder.py:48-70 | fails if and only if the worker count is not positive; otherwise what is yielded, in whatever completion order, is as a multiset exactly the records of the labels whose check gave one |
| SubdomainFinder.ScanTwice | subdomain_finder/src/subdomain_finder.py:65-70 | two scans with the same oracles agree on failure and yield the same multiset of records |
| SubdomainFinder.MockedDnsFound | subdomain_finder/tests/test_subdomain_finder.py:28-41 | with the test's mock and probing off, only "exists" gives a record: ("exists.example.com", "5.6.7.8", no status) |
| SubdomainFinder.MockedDnsScenario | subdomain_finder/tests/test_subdomain_finder.py:28-41 | the test's scan with two workers yields exactly one record, for "exists.example.com" with address "5.6.7.8" |
| SubdomainFinder.ExampleComIsNormal | subdomain_finder/tests/test_subdomain_finder.py:38 | "example.com" is already in normal form |
| SubdomainFinder.Collect | subdomain_finder/src/subdomain_finder.py:92-96 | `main` collects every yielded record, in the order yielded |
| SubdomainFinder.RunMain | subdomain_finder/src/subdomain_finder.py:84-104 | a missing wordlist exits with 2 and collects nothing; otherwise the run raises if and only if the worker count is not positive, and else exits with 0 holding, as a multiset, exactly the records of the loaded labels |

## Left out

- Reading the file: `read_text(encoding="utf-8", errors="ignore")` is not modelled. `LoadWordlist` takes the decoded text, so undecodable bytes that are dropped, and a path that exists but cannot be read, are outside the model.
- Argument parsing: `argparse`, its defaults and its own exit code for bad arguments are not modelled. `RunMain` takes the parsed values.
- Output: the console lines and the elapsed-time report are not modelled.
- SubdomainFinder.RunMain: has no crash path for the `-o` file. At lines 97-100, `mkdir` or `open("a")` raises on an unwritable path, and the exception escapes `main` after only some records were collected and written. The model leaves out that file and its failures.
- Timeouts: `resolve_host` accepts a `timeout` but never uses it, so a lookup blocks as long as `socket.gethostbyname` does and has no timeout expiry of its own. `probe_http` passes its `timeout` to `requests.get`, where expiry is one of the exceptions the HTTP oracle may raise.
- Oracles are fixed for a run: a `Network` value answers a given hostname or URL the same way every time, so a label that appears twice gets two identical records. Two real `gethostbyname` calls for the same host may answer differently.
- Concurrency: the bound of `threads` on how many checks run at once, and the real interleaving of the workers, are not modelled. The model fixes only that each label is checked once and that the completion order is arbitrary.
- Duplicate labels: `futures` is a dict keyed by future, so a repeated label is checked once per occurrence; the model does the same, and does not model the dict itself.
- PyStr.Lower: maps only the ASCII letters. Python's `lower()` also maps other Unicode letters, and may change a string's length for a few characters.
- SubdomainFinder.FindSubdomains: states the yielded records as a multiset, not their order, because the order depends on thread scheduling.
- SubdomainFinder.RunMain: states the collected records as a multiset, for the same reason.
- Laziness: `find_subdomains` is a generator, so normalisation and the pool's `ValueError` happen when `main` starts iterating. The model evaluates them at the call; nothing observable happens in between.
