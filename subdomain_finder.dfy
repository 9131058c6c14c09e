/** The threaded subdomain finder: wordlist parsing, target normalisation, the per-label
    resolve-then-probe check, the collection of found subdomains and the exit-code decision of
    the command line. DNS and HTTP are oracles; the thread pool is replaced by an arbitrary
    completion order. */
module SubdomainFinder {
  import opened Wrappers
  import opened PyStr

  // ---------------------------------------------------------------------------------------------
  // Wordlist

  /** `line.startswith("#")`, tested on the line as read, before stripping. A comment line is never
      blank, so it is the "#" test alone that drops it. */
  predicate IsComment(line: string)
    ensures IsComment(line) ==> Strip(line, IsSpace) != []
  {
    |line| > 0 && line[0] == '#'
  }

  /** The filter of `load_wordlist`: non-blank once stripped, and not a comment as read. A line that
      passes strips to a trimmed label. */
  predicate IsLabelLine(line: string)
    ensures IsLabelLine(line) ==> IsTrimmedLabel(Strip(line, IsSpace))
  {
    Strip(line, IsSpace) != [] && !IsComment(line)
  }

  /** What every loaded label looks like: non-empty, no whitespace at either end. */
  predicate IsTrimmedLabel(word: string)
  {
    word != [] && !IsSpace(word[0]) && !IsSpace(word[|word| - 1])
  }

  /** The list comprehension of `load_wordlist` over the lines of the file: the stripped form of
      every label line, in file order. */
  function SelectLabels(lines: seq<string>): (labels: seq<string>)
    ensures |labels| <= |lines|
    ensures forall k :: 0 <= k < |labels| ==> IsTrimmedLabel(labels[k])
  {
    if lines == [] then []
    else (if IsLabelLine(lines[0]) then [Strip(lines[0], IsSpace)] else []) + SelectLabels(lines[1..])
  }

  /** `load_wordlist` on the decoded text of the file: at most one label per line of the text,
      each non-empty, trimmed and free of line boundaries. */
  function LoadWordlist(text: string): (labels: seq<string>)
    ensures |labels| <= |SplitLines(text)|
    ensures forall k :: 0 <= k < |labels| ==> IsTrimmedLabel(labels[k]) && NoBreak(labels[k])
  {
    var lines := SplitLines(text);
    var labels := SelectLabels(lines);
    assert forall k :: 0 <= k < |labels| ==> NoBreak(labels[k]) by {
      forall k | 0 <= k < |labels| ensures NoBreak(labels[k]) {
        SelectLabelsMembers(lines, labels[k]);
        var line :| line in lines && IsLabelLine(line) && Strip(line, IsSpace) == labels[k];
        StripKeepsNoBreak(line);
      }
    }
    labels
  }

  lemma StripKeepsNoBreak(line: string)
    requires NoBreak(line)
    ensures NoBreak(Strip(line, IsSpace))
  {
    var r, a := Strip(line, IsSpace), LeadingCount(line, IsSpace);
    assert forall k :: 0 <= k < |r| ==> r[k] == line[a + k];
  }

  /** A string is selected exactly when some label line strips to it. */
  lemma {:induction false} SelectLabelsMembers(lines: seq<string>, word: string)
    ensures word in SelectLabels(lines) <==>
      exists line :: line in lines && IsLabelLine(line) && Strip(line, IsSpace) == word
  {
    if lines != [] {
      SelectLabelsMembers(lines[1..], word);
      var head := if IsLabelLine(lines[0]) then [Strip(lines[0], IsSpace)] else [];
      assert SelectLabels(lines) == head + SelectLabels(lines[1..]);
      assert forall line :: line in lines <==> line == lines[0] || line in lines[1..];
    }
  }

  /** File order is kept: the labels of two consecutive stretches of lines are the labels of the
      first followed by the labels of the second. */
  lemma {:induction false} SelectLabelsAppend(a: seq<string>, b: seq<string>)
    ensures SelectLabels(a + b) == SelectLabels(a) + SelectLabels(b)
  {
    if a == [] {
      assert a + b == b;
    } else {
      assert (a + b)[0] == a[0];
      assert (a + b)[1..] == a[1..] + b;
      SelectLabelsAppend(a[1..], b);
    }
  }

  /** A label appears in the loaded list exactly when some label line of the text strips to it. */
  lemma LoadWordlistMembers(text: string, word: string)
    ensures word in LoadWordlist(text) <==>
      exists line :: line in SplitLines(text) && IsLabelLine(line) && Strip(line, IsSpace) == word
  {
    SelectLabelsMembers(SplitLines(text), word);
  }

  /** A wordlist of trimmed, uncommented, single-line labels written one per line loads back
      unchanged. */
  lemma {:induction false} LoadWordlistRoundTrip(labels: seq<string>)
    requires forall k :: 0 <= k < |labels| ==> IsTrimmedLabel(labels[k]) && NoBreak(labels[k]) && !IsComment(labels[k])
    ensures LoadWordlist(JoinLines(labels)) == labels
  {
    SplitJoinLines(labels);
    SelectTrimmedLines(labels);
  }

  lemma {:induction false} SelectTrimmedLines(labels: seq<string>)
    requires forall k :: 0 <= k < |labels| ==> IsTrimmedLabel(labels[k]) && !IsComment(labels[k])
    ensures SelectLabels(labels) == labels
  {
    if labels != [] {
      StripTrimmed(labels[0], IsSpace);
      SelectTrimmedLines(labels[1..]);
    }
  }

  /** The wordlist of the source's own test: the comment line is dropped, the rest kept in order. */
  lemma LoadWordlistExample()
    ensures LoadWordlist("a\nb\n#comment\nc\n") == ["a", "b", "c"]
  {
    ExampleWordlistText();
    LoadWordlistSkipsComment(["a", "b"], "#comment", ["c"]);
  }

  lemma ExampleWordlistText()
    ensures JoinLines(["a", "b"] + ["#comment"] + ["c"]) == "a\nb\n#comment\nc\n"
  {
    assert ["a", "b"] + ["#comment"] + ["c"] == ["a", "b", "#comment", "c"];
    assert JoinLines(["a", "b", "#comment", "c"]) == "a\nb\n#comment\nc\n";
  }

  /** A comment line between clean label lines is dropped and the rest loads back unchanged. */
  lemma LoadWordlistSkipsComment(before: seq<string>, comment: string, after: seq<string>)
    requires forall k :: 0 <= k < |before| ==> IsTrimmedLabel(before[k]) && NoBreak(before[k]) && !IsComment(before[k])
    requires IsComment(comment) && NoBreak(comment)
    requires forall k :: 0 <= k < |after| ==> IsTrimmedLabel(after[k]) && NoBreak(after[k]) && !IsComment(after[k])
    ensures LoadWordlist(JoinLines(before + [comment] + after)) == before + after
  {
    AllNoBreakAppend(before, [comment]);
    AllNoBreakAppend(before + [comment], after);
    LoadWordlistOfLines(before + [comment] + after);
    SelectLabelsSkipsComment(before, comment, after);
    SelectTrimmedLines(before);
    SelectTrimmedLines(after);
  }

  lemma AllNoBreakAppend(a: seq<string>, b: seq<string>)
    requires forall k :: 0 <= k < |a| ==> NoBreak(a[k])
    requires forall k :: 0 <= k < |b| ==> NoBreak(b[k])
    ensures forall k :: 0 <= k < |a + b| ==> NoBreak((a + b)[k])
  {
  }

  /** Loading text written from break-free lines selects from exactly those lines. */
  lemma LoadWordlistOfLines(lines: seq<string>)
    requires forall k :: 0 <= k < |lines| ==> NoBreak(lines[k])
    ensures LoadWordlist(JoinLines(lines)) == SelectLabels(lines)
  {
    SplitJoinLines(lines);
  }

  lemma SelectLabelsSkipsComment(before: seq<string>, comment: string, after: seq<string>)
    requires IsComment(comment)
    ensures SelectLabels(before + [comment] + after) == SelectLabels(before) + SelectLabels(after)
  {
    SelectLabelsAppend(before + [comment], after);
    SelectLabelsAppend(before, [comment]);
    assert SelectLabels([comment]) == [];
    assert SelectLabels(before) + [] == SelectLabels(before);
  }

  /** The comment test looks at the raw line: an indented "#" line is kept, stripped. */
  lemma LoadWordlistIndentedHash()
    ensures LoadWordlist("  #x") == ["#x"]
  {
    assert BreakIndex("  #x") == 4;
    assert SplitLines("  #x") == ["  #x"];
    StripIndentedHash();
  }

  lemma StripIndentedHash()
    ensures Strip("  #x", IsSpace) == "#x"
  {
    assert LeadingCount("  #x", IsSpace) == 2;
    assert LStrip("  #x", IsSpace) == "#x";
    assert TrailingCount("#x", IsSpace) == 0;
  }

  // ---------------------------------------------------------------------------------------------
  // Target and candidate hostnames

  /** `target.strip().lower().rstrip('.')`: nothing uppercase, no trailing dot, no leading
      whitespace; what was cut from the lowered, stripped target is dots only. */
  function NormalizeTarget(target: string): (r: string)
    ensures forall i :: 0 <= i < |r| ==> !IsUpper(r[i])
    ensures r == [] || r[|r| - 1] != '.'
    ensures r == [] || !IsSpace(r[0])
    ensures |r| <= |Strip(target, IsSpace)|
    ensures r == Lower(Strip(target, IsSpace))[..|r|]
    ensures forall i :: |r| <= i < |Strip(target, IsSpace)| ==> Lower(Strip(target, IsSpace))[i] == '.'
  {
    var stripped := Strip(target, IsSpace);
    LowerThenRStrip(stripped);
    RStrip(Lower(stripped), IsDot)
  }

  /** Lower-casing and then cutting trailing dots leaves no upper-case letter, and does not bring
      whitespace to the front. */
  lemma LowerThenRStrip(s: string)
    requires s == [] || !IsSpace(s[0])
    ensures forall i :: 0 <= i < |RStrip(Lower(s), IsDot)| ==> !IsUpper(RStrip(Lower(s), IsDot)[i])
    ensures RStrip(Lower(s), IsDot) == [] || !IsSpace(RStrip(Lower(s), IsDot)[0])
  {
    var r := RStrip(Lower(s), IsDot);
    if r != [] {
      LowerKeepsClasses(s, 0);
    }
  }

  /** A target with no whitespace at either end and nothing uppercase only loses its trailing dots. */
  lemma NormalizeTrimmedTarget(target: string)
    requires target == [] || (!IsSpace(target[0]) && !IsSpace(target[|target| - 1]))
    requires forall i :: 0 <= i < |target| ==> !IsUpper(target[i])
    ensures NormalizeTarget(target) == RStrip(target, IsDot)
  {
    StripTrimmed(target, IsSpace);
    LowerNoUpper(target);
  }

  /** A target already in normal form is left as it is. */
  lemma NormalizeTargetFixed(target: string)
    requires target == [] || (!IsSpace(target[0]) && !IsSpace(target[|target| - 1]))
    requires target == [] || target[|target| - 1] != '.'
    requires forall i :: 0 <= i < |target| ==> !IsUpper(target[i])
    ensures NormalizeTarget(target) == target
  {
    NormalizeTrimmedTarget(target);
    RStripExact(target, [], IsDot);
    assert target + [] == target;
  }

  /** Normalising twice is normalising once, unless the trailing dots hid whitespace. */
  lemma NormalizeTargetIdempotent(target: string)
    requires NormalizeTarget(target) == [] || !IsSpace(NormalizeTarget(target)[|NormalizeTarget(target)| - 1])
    ensures NormalizeTarget(NormalizeTarget(target)) == NormalizeTarget(target)
  {
    NormalizeTargetFixed(NormalizeTarget(target));
  }

  /** `rstrip('.')` removes every trailing dot, not only the last: a name in normal form followed by
      any number of dots normalises to the name. */
  lemma NormalizeTargetDropsAllDots(name: string, dots: string)
    requires name == [] || (!IsSpace(name[0]) && !IsSpace(name[|name| - 1]) && name[|name| - 1] != '.')
    requires forall i :: 0 <= i < |name| ==> !IsUpper(name[i])
    requires forall i :: 0 <= i < |dots| ==> dots[i] == '.'
    ensures NormalizeTarget(name + dots) == name
  {
    if dots == [] {
      assert name + dots == name;
      NormalizeTargetFixed(name);
    } else if name == [] {
      assert name + dots == dots;
      NormalizeTrimmedTarget(dots);
      RStripExact([], dots, IsDot);
      assert [] + dots == dots;
    } else {
      NormalizeDotted(name, dots);
    }
  }

  /** Whitespace before the trailing dots survives: the strip runs before the dots are cut, so
      "name<spaces><dots>" normalises to "name<spaces>", whose own normal form is "name" (for
      example "ab ." gives "ab ", and "ab " gives "ab"). */
  lemma NormalizeTargetKeepsSpaceBeforeDots(name: string, gap: string, dots: string)
    requires name != [] && !IsSpace(name[0]) && !IsSpace(name[|name| - 1]) && name[|name| - 1] != '.'
    requires forall i :: 0 <= i < |name| ==> !IsUpper(name[i])
    requires forall i :: 0 <= i < |gap| ==> IsSpace(gap[i])
    requires dots != [] && forall i :: 0 <= i < |dots| ==> dots[i] == '.'
    ensures NormalizeTarget(name + gap + dots) == name + gap
    ensures NormalizeTarget(name + gap) == name
  {
    NoUpperAppend(name, gap);
    LastOfAppend(name, gap);
    NormalizeDotted(name + gap, dots);
    NormalizeTargetDropsSpace(name, gap);
  }

  /** A non-empty, upper-case-free name that starts with no whitespace and ends in no dot, followed
      by at least one dot, normalises to the name: the dots go, whatever the name ends with. */
  lemma NormalizeDotted(name: string, dots: string)
    requires name != [] && !IsSpace(name[0]) && name[|name| - 1] != '.'
    requires forall i :: 0 <= i < |name| ==> !IsUpper(name[i])
    requires dots != [] && forall i :: 0 <= i < |dots| ==> dots[i] == '.'
    ensures NormalizeTarget(name + dots) == name
  {
    var s := name + dots;
    NoUpperAppend(name, dots);
    assert s[0] == name[0] && s[|s| - 1] == '.';
    NormalizeTrimmedTarget(s);
    RStripExact(name, dots, IsDot);
  }

  lemma NoUpperAppend(a: string, b: string)
    requires forall i :: 0 <= i < |a| ==> !IsUpper(a[i])
    requires forall i :: 0 <= i < |b| ==> !IsUpper(b[i])
    ensures forall i :: 0 <= i < |a + b| ==> !IsUpper((a + b)[i])
  {
  }

  lemma LastOfAppend(a: string, b: string)
    requires a != []
    ensures (a + b)[|a + b| - 1] == if b == [] then a[|a| - 1] else b[|b| - 1]
  {
  }

  lemma NormalizeTargetDropsSpace(name: string, gap: string)
    requires name == [] || (!IsSpace(name[0]) && !IsSpace(name[|name| - 1]) && name[|name| - 1] != '.')
    requires forall i :: 0 <= i < |name| ==> !IsUpper(name[i])
    requires forall i :: 0 <= i < |gap| ==> IsSpace(gap[i])
    ensures NormalizeTarget(name + gap) == name
  {
    calc {
      NormalizeTarget(name + gap);
      RStrip(Lower(Strip(name + gap, IsSpace)), IsDot);
      { assert name + gap == [] + name + gap;
        StripExact([], name, gap, IsSpace); }
      RStrip(Lower(name), IsDot);
      { LowerNoUpper(name); }
      RStrip(name, IsDot);
      { RStripExact(name, [], IsDot);
        assert name + [] == name; }
      name;
    }
  }

  /** The hostname checked for `label`, `f"{label}.{target}"`: the label, one dot and the target,
      in that order. */
  function Candidate(word: string, target: string): (host: string)
    ensures |host| == |word| + 1 + |target|
    ensures host[..|word|] == word
    ensures host[|word|] == '.'
    ensures host[|word| + 1..] == target
  {
    word + "." + target
  }

  /** For one target, different labels give different candidate hostnames. */
  lemma CandidateInjective(l1: string, l2: string, target: string)
    requires Candidate(l1, target) == Candidate(l2, target)
    ensures l1 == l2
  {
  }

  // ---------------------------------------------------------------------------------------------
  // DNS and HTTP

  /** What a call into code outside the model did: returned a value or raised an exception. */
  datatype Call<T> = Returned(value: T) | Raised

  /** The outside world as the finder sees it: the platform's `socket.gethostbyname` on a
      hostname, and `requests.get` on a URL (following redirects) giving the final status code. */
  datatype Network = Network(gethostbyname: string -> Call<string>, httpGet: string -> Call<int>)

  /** `resolve_host`: one lookup of `host`; an exception becomes `None`. */
  function ResolveHost(net: Network, host: string): (ip: Option<string>)
    ensures ip.None? <==> net.gethostbyname(host).Raised?
    ensures ip.Some? ==> ip.value == net.gethostbyname(host).value
  {
    match net.gethostbyname(host)
    case Returned(address) => Some(address)
    case Raised => None
  }

  /** The source's resolver test: an answered lookup gives the address, a raising one `None`. */
  lemma ResolveHostExample(net: Network)
    requires net.gethostbyname("exists.example.com") == Returned("1.2.3.4")
    requires net.gethostbyname("nope.example.com").Raised?
    ensures ResolveHost(net, "exists.example.com") == Some("1.2.3.4")
    ensures ResolveHost(net, "nope.example.com") == None
  {
  }

  /** The URL `probe_http` requests for a host: `f"http://{host}/"`, the scheme, the host and
      one slash. */
  function ProbeUrl(host: string): (url: string)
    ensures |url| == |host| + 8
    ensures url[..7] == "http://"
    ensures url[7..|url| - 1] == host
    ensures url[|url| - 1] == '/'
  {
    "http://" + host + "/"
  }

  /** `probe_http`: one GET of `http://host/`; the status code if the request completed (any
      code, 4xx and 5xx included), `None` if it raised. */
  function ProbeHttp(net: Network, host: string): (status: Option<int>)
    ensures status.None? <==> net.httpGet(ProbeUrl(host)).Raised?
    ensures status.Some? ==> status.value == net.httpGet(ProbeUrl(host)).value
  {
    match net.httpGet(ProbeUrl(host))
    case Returned(code) => Some(code)
    case Raised => None
  }

  /** One found subdomain: `{"subdomain": ..., "ip": ..., "http_status": ...}`. */
  datatype ScanResult = ScanResult(subdomain: string, ip: string, httpStatus: Option<int>)

  /** Python truthiness of the resolver's answer: `None` and the empty string are false. */
  predicate IsTruthy(ip: Option<string>) { ip.Some? && ip.value != "" }

  /** `check(label)` inside `find_subdomains`, for the normalised `target`: no record when the
      lookup raised or answered the empty string; otherwise a record for the candidate hostname
      carrying the answer, with the probe's status when probing is on and `None` when it is off. */
  function Check(net: Network, target: string, httpProbe: bool, word: string): (r: Option<ScanResult>)
    ensures r.None? <==>
      (net.gethostbyname(Candidate(word, target)).Raised? || net.gethostbyname(Candidate(word, target)).value == "")
    ensures r.Some? ==> r.value.subdomain == Candidate(word, target)
    ensures r.Some? ==> r.value.ip == net.gethostbyname(Candidate(word, target)).value && r.value.ip != ""
    ensures r.Some? && !httpProbe ==> r.value.httpStatus.None?
    ensures r.Some? && httpProbe ==> r.value.httpStatus == ProbeHttp(net, Candidate(word, target))
    ensures r.Some? && httpProbe ==>
      (r.value.httpStatus.None? <==> net.httpGet(ProbeUrl(Candidate(word, target))).Raised?)
  {
    var sub := Candidate(word, target);
    var ip := ResolveHost(net, sub);
    if !IsTruthy(ip) then None
    else
      var status := if httpProbe then ProbeHttp(net, sub) else None;
      Some(ScanResult(sub, ip.value, status))
  }

  /** With probing off, the HTTP client is never consulted: networks that agree on lookups give
      the same records whatever their HTTP behaviour. */
  lemma CheckIgnoresHttpWhenOff(n1: Network, n2: Network, target: string, word: string)
    requires n1.gethostbyname == n2.gethostbyname
    ensures Check(n1, target, false, word) == Check(n2, target, false, word)
  {
  }

  /** One lookup, of the candidate hostname only, and at most one GET, of its URL: networks that
      agree on those two answers give the same record. No retry, no other resolver, no other host
      is consulted. */
  lemma CheckConsultsOnlyCandidate(n1: Network, n2: Network, target: string, httpProbe: bool, word: string)
    requires n1.gethostbyname(Candidate(word, target)) == n2.gethostbyname(Candidate(word, target))
    requires n1.httpGet(ProbeUrl(Candidate(word, target))) == n2.httpGet(ProbeUrl(Candidate(word, target)))
    ensures Check(n1, target, httpProbe, word) == Check(n2, target, httpProbe, word)
  {
  }

  /** A record names the label it came from: two labels with records for the same subdomain are
      the same label. */
  lemma CheckDeterminesLabel(net: Network, target: string, httpProbe: bool, l1: string, l2: string)
    requires Check(net, target, httpProbe, l1).Some? && Check(net, target, httpProbe, l2).Some?
    requires Check(net, target, httpProbe, l1).value.subdomain == Check(net, target, httpProbe, l2).value.subdomain
    ensures l1 == l2
  {
    CandidateInjective(l1, l2, target);
  }

  // ---------------------------------------------------------------------------------------------
  // Collecting results

  /** The records of `labels`, one per label whose check gave one, in label order. The finder
      yields these in some completion order. */
  function Found(net: Network, target: string, httpProbe: bool, labels: seq<string>): (rs: seq<ScanResult>)
    ensures |rs| <= |labels|
    ensures forall k :: 0 <= k < |rs| ==> rs[k].ip != ""
  {
    if labels == [] then []
    else
      var head := Check(net, target, httpProbe, labels[0]);
      (if head.Some? then [head.value] else []) + Found(net, target, httpProbe, labels[1..])
  }

  /** The records of two stretches of labels are the records of each, one after the other. */
  lemma {:induction false} FoundAppend(net: Network, target: string, httpProbe: bool, a: seq<string>, b: seq<string>)
    ensures Found(net, target, httpProbe, a + b) == Found(net, target, httpProbe, a) + Found(net, target, httpProbe, b)
  {
    if a == [] {
      assert a + b == b;
    } else {
      assert (a + b)[0] == a[0];
      assert (a + b)[1..] == a[1..] + b;
      FoundAppend(net, target, httpProbe, a[1..], b);
    }
  }

  /** Nothing missing, nothing extra: a record is found exactly when some label's check gives it. */
  lemma {:induction false} FoundMembers(net: Network, target: string, httpProbe: bool, labels: seq<string>, rec: ScanResult)
    ensures rec in Found(net, target, httpProbe, labels) <==>
      exists word :: word in labels && Check(net, target, httpProbe, word) == Some(rec)
  {
    if labels != [] {
      FoundMembers(net, target, httpProbe, labels[1..], rec);
      if word :| word in labels && Check(net, target, httpProbe, word) == Some(rec) {
        if word != labels[0] {
          assert word in labels[1..];
        }
      }
    }
  }

  /** Distinct labels give distinct records. */
  lemma {:induction false} FoundDistinct(net: Network, target: string, httpProbe: bool, labels: seq<string>)
    requires forall i, j :: 0 <= i < j < |labels| ==> labels[i] != labels[j]
    ensures forall i, j :: 0 <= i < j < |Found(net, target, httpProbe, labels)| ==>
      Found(net, target, httpProbe, labels)[i] != Found(net, target, httpProbe, labels)[j]
  {
    if labels != [] {
      var rest := Found(net, target, httpProbe, labels[1..]);
      FoundDistinct(net, target, httpProbe, labels[1..]);
      var head := Check(net, target, httpProbe, labels[0]);
      if head.Some? {
        forall k | 0 <= k < |rest| ensures rest[k] != head.value {
          assert rest[k] in rest;
          FoundMembers(net, target, httpProbe, labels[1..], rest[k]);
          var l :| l in labels[1..] && Check(net, target, httpProbe, l) == Some(rest[k]);
          if rest[k] == head.value {
            CheckDeterminesLabel(net, target, httpProbe, labels[0], l);
            assert false;
          }
        }
      }
    }
  }

  /** Taking any one label out of a stretch takes out exactly that label's record, if it has one. */
  lemma FoundRemove(net: Network, target: string, httpProbe: bool, labels: seq<string>, j: int)
    requires 0 <= j < |labels|
    ensures multiset(Found(net, target, httpProbe, labels)) ==
      multiset(Found(net, target, httpProbe, labels[..j] + labels[j + 1..]))
      + (match Check(net, target, httpProbe, labels[j]) case Some(rec) => multiset{rec} case None => multiset{})
  {
    assert labels == labels[..j] + [labels[j]] + labels[j + 1..];
    FoundAppend(net, target, httpProbe, labels[..j] + [labels[j]], labels[j + 1..]);
    FoundAppend(net, target, httpProbe, labels[..j], [labels[j]]);
    FoundAppend(net, target, httpProbe, labels[..j], labels[j + 1..]);
  }

  /** `ThreadPoolExecutor(max_workers=threads)` raises `ValueError` unless `threads` is positive. */
  datatype ScanError = InvalidWorkerCount

  /** `find_subdomains`: every label's check runs once, and the records are yielded in the order
      the checks complete, which is arbitrary here. What is yielded is, as a multiset, exactly the
      records of the labels whose check gave one; labels that do not resolve add nothing. */
  method FindSubdomains(net: Network, target: string, labels: seq<string>, threads: int, httpProbe: bool)
    returns (outcome: Result<seq<ScanResult>, ScanError>)
    ensures outcome.Failure? <==> threads <= 0
    ensures outcome.Success? ==>
      multiset(outcome.value) == multiset(Found(net, NormalizeTarget(target), httpProbe, labels))
  {
    var t := NormalizeTarget(target);
    if threads <= 0 {
      return Failure(InvalidWorkerCount);
    }
    var pending := labels;
    var results: seq<ScanResult> := [];
    while pending != []
      invariant multiset(results) + multiset(Found(net, t, httpProbe, pending)) == multiset(Found(net, t, httpProbe, labels))
      decreases |pending|
    {
      // whichever submitted check completes next
      var j :| 0 <= j < |pending|;
      var res := Check(net, t, httpProbe, pending[j]);
      FoundRemove(net, t, httpProbe, pending, j);
      pending := pending[..j] + pending[j + 1..];
      if res.Some? {
        results := results + [res.value];
      }
    }
    return Success(results);
  }

  /** Scanning twice with the same oracles finds the same records, whatever the two completion
      orders were. */
  method ScanTwice(net: Network, target: string, labels: seq<string>, threads: int, httpProbe: bool)
    returns (first: Result<seq<ScanResult>, ScanError>, second: Result<seq<ScanResult>, ScanError>)
    ensures first.Success? <==> second.Success?
    ensures first.Success? && second.Success? ==> multiset(first.value) == multiset(second.value)
  {
    first := FindSubdomains(net, target, labels, threads, httpProbe);
    second := FindSubdomains(net, target, labels, threads, httpProbe);
  }

  /** The records of the source's mocked-DNS test: the lookup of "exists.example.com" answers
      "5.6.7.8", that of "nope.example.com" raises, probing is off. */
  lemma MockedDnsFound(net: Network)
    requires net.gethostbyname("exists.example.com") == Returned("5.6.7.8")
    requires net.gethostbyname("nope.example.com").Raised?
    ensures Found(net, "example.com", false, ["exists", "nope"]) == [ScanResult("exists.example.com", "5.6.7.8", None)]
  {
    MockedCandidates();
    assert Check(net, "example.com", false, "exists") == Some(ScanResult("exists.example.com", "5.6.7.8", None));
    assert Check(net, "example.com", false, "nope") == None;
    assert ["exists", "nope"][1..] == ["nope"];
    assert Found(net, "example.com", false, ["nope"]) == [];
  }

  lemma MockedCandidates()
    ensures Candidate("exists", "example.com") == "exists.example.com"
    ensures Candidate("nope", "example.com") == "nope.example.com"
  {
  }

  /** The source's mocked-DNS test, on any network that behaves as its mock: the target is already
      normal, two workers, probing off, and exactly one record comes back. */
  method MockedDnsScenario(net: Network) returns (results: seq<ScanResult>)
    requires net.gethostbyname("exists.example.com") == Returned("5.6.7.8")
    requires net.gethostbyname("nope.example.com").Raised?
    ensures results == [ScanResult("exists.example.com", "5.6.7.8", None)]
  {
    var outcome := FindSubdomains(net, "example.com", ["exists", "nope"], 2, false);
    var expected := ScanResult("exists.example.com", "5.6.7.8", None);
    ExampleComIsNormal();
    MockedDnsFound(net);
    results := outcome.value;
    SingletonMultiset(results, expected);
  }

  /** The target of the source's tests is already in normal form. */
  lemma ExampleComIsNormal()
    ensures NormalizeTarget("example.com") == "example.com"
  {
    var t := "example.com";
    assert forall i :: 0 <= i < |t| ==> 'a' <= t[i] <= 'z' || t[i] == '.';
    NormalizeTargetFixed(t);
  }

  lemma SingletonMultiset<T>(xs: seq<T>, x: T)
    requires multiset(xs) == multiset{x}
    ensures xs == [x]
  {
    assert |xs| == |multiset(xs)| == 1;
    assert xs[0] in multiset(xs);
  }

  // ---------------------------------------------------------------------------------------------
  // The command line

  /** How a run of `main` ends: an exit code with the records it collected, or an exception that
      escapes `main`. */
  datatype Run = Exited(code: int, found: seq<ScanResult>) | Crashed(error: ScanError)

  /** The loop of `main` over the yielded records: each one is appended to `results` as it
      arrives, so the list holds every yielded record in the order yielded. */
  method Collect(stream: seq<ScanResult>) returns (results: seq<ScanResult>)
    ensures results == stream
  {
    results := [];
    for i := 0 to |stream|
      invariant results == stream[..i]
    {
      results := results + [stream[i]];
    }
  }

  /** `main` after argument parsing. `wordlist` is the decoded text of the wordlist file, `None`
      when the file does not exist. A missing file exits with 2 before any lookup; otherwise every
      yielded record is collected, in the order yielded, and the run exits with 0, unless the
      worker pool refuses its size. */
  method RunMain(net: Network, target: string, wordlist: Option<string>, threads: int, httpProbe: bool)
    returns (run: Run)
    ensures wordlist.None? ==> run == Exited(2, [])
    ensures wordlist.Some? ==> (run.Crashed? <==> threads <= 0)
    ensures wordlist.Some? && run.Exited? ==>
      run.code == 0 && multiset(run.found) == multiset(Found(net, NormalizeTarget(target), httpProbe, LoadWordlist(wordlist.value)))
  {
    if wordlist.None? {
      return Exited(2, []);
    }
    var labels := LoadWordlist(wordlist.value);
    var stream := FindSubdomains(net, target, labels, threads, httpProbe);
    if stream.Failure? {
      return Crashed(stream.error);
    }
    var results := Collect(stream.value);
    return Exited(0, results);
  }
}
