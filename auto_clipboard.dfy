/**
 * The clipboard URL logger (auto_clipboard.py): `is_valid_url`, the row and
 * header that `log_url_to_csv` appends, and the polling loop of
 * `monitor_clipboard`, run over a finite sequence of clipboard samples.
 */
module AutoClipboard {
  import opened Wrappers
  import opened Text

  // ---------------------------------------------------------------------------
  // is_valid_url: the pieces of the regular expression
  // ---------------------------------------------------------------------------

  /** `[A-Z]` under `re.IGNORECASE`, on ASCII. */
  predicate IsLetter(c: char) {
    'a' <= c <= 'z' || 'A' <= c <= 'Z'
  }

  /** `[A-Z0-9-]` under `re.IGNORECASE`. */
  predicate IsLabelChar(c: char) {
    IsLetter(c) || IsDigit(c) || c == '-'
  }

  /** A character that can occur in any of the three host forms. */
  predicate IsHostChar(c: char) {
    IsLabelChar(c) || c == '.'
  }

  predicate AllLabelChars(s: string) {
    forall k | 0 <= k < |s| :: IsLabelChar(s[k])
  }

  /** `(?:http|ftp)s?://`, ignoring case. */
  predicate IsScheme(s: string) {
    || SameIgnoringCase(s, "http://")
    || SameIgnoringCase(s, "https://")
    || SameIgnoringCase(s, "ftp://")
    || SameIgnoringCase(s, "ftps://")
  }

  /** `[A-Z0-9](?:[A-Z0-9-]{0,61}[A-Z0-9])?`: 1 to 63 letters, digits and
      hyphens, neither first nor last a hyphen. */
  predicate IsLabel(l: string) {
    1 <= |l| <= 63 && AllLabelChars(l) && l[0] != '-' && l[|l| - 1] != '-'
  }

  /** `[A-Z]{2,6}|[A-Z0-9-]{2,}`, the top-level label without its optional dot. */
  predicate IsTldBody(t: string) {
    || (2 <= |t| <= 6 && forall k | 0 <= k < |t| :: IsLetter(t[k]))
    || (2 <= |t| && AllLabelChars(t))
  }

  /** `(?:[A-Z]{2,6}\.?|[A-Z0-9-]{2,}\.?)` */
  predicate IsTld(t: string) {
    IsTldBody(t) || (|t| >= 1 && t[|t| - 1] == '.' && IsTldBody(t[..|t| - 1]))
  }

  /** Index of the first `.` in `s`, if any. */
  function FirstDot(s: string): (d: Option<nat>)
    ensures d.Some? ==> d.value < |s| && s[d.value] == '.' && forall k | 0 <= k < d.value :: s[k] != '.'
    ensures d.None? ==> forall k | 0 <= k < |s| :: s[k] != '.'
  {
    if s == [] then None
    else if s[0] == '.' then Some(0)
    else match FirstDot(s[1..])
      case None => None
      case Some(d) => Some(d + 1)
  }

  /** `(?:label\.)+tld`. A label holds no dot, so each one ends at the first dot. */
  predicate IsDomain(h: string)
    decreases |h|
  {
    match FirstDot(h)
    case None => false
    case Some(d) => IsLabel(h[..d]) && (IsTld(h[d + 1..]) || IsDomain(h[d + 1..]))
  }

  /** `\d{1,3}` */
  predicate IsDigitGroup(g: string) {
    1 <= |g| <= 3 && AllDigits(g)
  }

  /** `n` digit groups joined by dots; `\d{1,3}\.\d{1,3}\.\d{1,3}\.\d{1,3}` for `n == 4`. */
  predicate IsDigitGroups(h: string, n: nat)
    decreases n
  {
    if n <= 1 then n == 1 && IsDigitGroup(h)
    else match FirstDot(h)
      case None => false
      case Some(d) => IsDigitGroup(h[..d]) && IsDigitGroups(h[d + 1..], n - 1)
  }

  /** The host alternatives: a domain, `localhost` (any case) or four digit
      groups (no range check on them). */
  predicate IsHost(h: string) {
    IsDomain(h) || SameIgnoringCase(h, "localhost") || IsDigitGroups(h, 4)
  }

  /** `(?::\d+)?` */
  predicate IsPort(p: string) {
    p == [] || (|p| >= 2 && p[0] == ':' && AllDigits(p[1..]))
  }

  /** `(?:/?|[/?]\S+)` */
  predicate IsPath(t: string) {
    || t == []
    || t == "/"
    || (|t| >= 2 && (t[0] == '/' || t[0] == '?') && forall k | 1 <= k < |t| :: !IsSpace(t[k]))
  }

  /** The whole pattern between `^` and `$`, read as a split of `s` into its four parts. */
  ghost predicate PatternBody(s: string) {
    exists i, j, k | 0 <= i <= j <= k <= |s| ::
      IsScheme(s[..i]) && IsHost(s[i..j]) && IsPort(s[j..k]) && IsPath(s[k..])
  }

  /** `re.match(url_regex, text) is not None`: `$` also matches just before a
      final newline. */
  ghost predicate MatchesUrlPattern(text: string) {
    || PatternBody(text)
    || (|text| >= 1 && text[|text| - 1] == '\n' && PatternBody(text[..|text| - 1]))
  }

  // ---------------------------------------------------------------------------
  // is_valid_url: a left-to-right scan
  // ---------------------------------------------------------------------------

  /** The end of the run of characters satisfying `p` that starts at `from`. */
  function Span(s: string, from: nat, p: char -> bool): (r: nat)
    requires from <= |s|
    ensures from <= r <= |s|
    ensures forall k | from <= k < r :: p(s[k])
    ensures r == |s| || !p(s[r])
    decreases |s| - from
  {
    if from == |s| || !p(s[from]) then from else Span(s, from + 1, p)
  }

  /** Length of the scheme `s` starts with, or 0 when it starts with none. */
  function SchemeLength(s: string): (n: nat)
    ensures n <= |s|
    ensures n > 0 ==> IsScheme(s[..n])
  {
    if |s| >= 8 && IsScheme(s[..8]) then 8
    else if |s| >= 7 && IsScheme(s[..7]) then 7
    else if |s| >= 6 && IsScheme(s[..6]) then 6
    else 0
  }

  /** The scan: scheme, the longest run of host characters, then a port when a
      colon follows, and the rest must be a path. */
  predicate ScansAsUrl(s: string) {
    var i := SchemeLength(s);
    var j := Span(s, i, IsHostChar);
    var k := if j < |s| && s[j] == ':' then Span(s, j + 1, IsDigit) else j;
    i > 0 && IsHost(s[i..j]) && IsPort(s[j..k]) && IsPath(s[k..])
  }

  /** `is_valid_url(text)` */
  predicate IsValidUrl(text: string) {
    || ScansAsUrl(text)
    || (|text| >= 1 && text[|text| - 1] == '\n' && ScansAsUrl(text[..|text| - 1]))
  }

  // ---------------------------------------------------------------------------
  // The scan decides the pattern
  // ---------------------------------------------------------------------------

  /** At most one scheme is a prefix of a string. */
  lemma SchemeUnique(s: string, n: nat)
    requires n <= |s| && IsScheme(s[..n])
    ensures SchemeLength(s) == n
  {
    var a := s[..n];
    if |s| >= 8 && IsScheme(s[..8]) {
      assert s[..8][0] == a[0] && s[..8][3] == a[3] && s[..8][4] == a[4];
    } else if |s| >= 7 && IsScheme(s[..7]) {
      assert s[..7][0] == a[0] && s[..7][3] == a[3];
    }
  }

  lemma LowerLetter(c: char)
    requires 'a' <= Lower(c) <= 'z'
    ensures IsLetter(c)
  {
  }

  lemma {:induction false} DomainChars(h: string)
    requires IsDomain(h)
    ensures forall k | 0 <= k < |h| :: IsHostChar(h[k])
    decreases |h|
  {
    var d := FirstDot(h).value;
    var rest := h[d + 1..];
    if !IsTld(rest) {
      DomainChars(rest);
    } else if !IsTldBody(rest) {
      assert forall k | 0 <= k < |rest| - 1 :: rest[k] == rest[..|rest| - 1][k];
    }
    forall k | 0 <= k < |h| ensures IsHostChar(h[k]) {
      if k < d {
        assert h[k] == h[..d][k];
      } else if k > d {
        assert h[k] == rest[k - d - 1];
      }
    }
  }

  lemma {:induction false} DigitGroupsChars(h: string, n: nat)
    requires IsDigitGroups(h, n)
    ensures forall k | 0 <= k < |h| :: IsHostChar(h[k])
    decreases n
  {
    if n > 1 {
      var d := FirstDot(h).value;
      DigitGroupsChars(h[d + 1..], n - 1);
      forall k | 0 <= k < |h| ensures IsHostChar(h[k]) {
        if k < d {
          assert h[k] == h[..d][k];
        } else if k > d {
          assert h[k] == h[d + 1..][k - d - 1];
        }
      }
    }
  }

  /** Every host is made of host characters, so it ends where they end. */
  lemma HostChars(h: string)
    requires IsHost(h)
    ensures forall k | 0 <= k < |h| :: IsHostChar(h[k])
  {
    if IsDomain(h) {
      DomainChars(h);
    } else if IsDigitGroups(h, 4) {
      DigitGroupsChars(h, 4);
    } else {
      forall k | 0 <= k < |h| ensures IsHostChar(h[k]) {
        assert Lower(h[k]) == Lower("localhost"[k]);
        LowerLetter(h[k]);
      }
    }
  }

  /** A run of `p` characters from `from` to just before a non-`p` character
      (or the end) is the span from `from`. */
  lemma SpanEndsAt(s: string, from: nat, j: nat, p: char -> bool)
    requires from <= j <= |s|
    requires forall x | from <= x < j :: p(s[x])
    requires j == |s| || !p(s[j])
    ensures Span(s, from, p) == j
  {
  }

  lemma PathStart(t: string)
    requires IsPath(t)
    ensures t == [] || t[0] == '/' || t[0] == '?'
  {
  }

  /** The host of an accepted split ends where the host characters end. */
  lemma SplitHost(s: string, i: nat, j: nat)
    requires i <= j <= |s| && IsHost(s[i..j])
    requires j == |s| || s[j] == ':' || s[j] == '/' || s[j] == '?'
    ensures j == Span(s, i, IsHostChar)
  {
    HostChars(s[i..j]);
    forall x | i <= x < j ensures IsHostChar(s[x]) {
      assert s[x] == s[i..j][x - i];
    }
    SpanEndsAt(s, i, j, IsHostChar);
  }

  /** The port of an accepted split is the colon and the digits after it. */
  lemma SplitPort(s: string, j: nat, k: nat)
    requires j <= k <= |s| && IsPort(s[j..k])
    requires k == |s| || s[k] == '/' || s[k] == '?'
    ensures k == if j < |s| && s[j] == ':' then Span(s, j + 1, IsDigit) else j
  {
    if j < k {
      assert s[j] == s[j..k][0];
      forall x | j + 1 <= x < k ensures IsDigit(s[x]) {
        assert s[x] == s[j..k][1..][x - j - 1];
      }
      SpanEndsAt(s, j + 1, k, IsDigit);
    }
  }

  /** Any split that the pattern body accepts is the one the scan makes. */
  lemma SplitIsScan(s: string, i: nat, j: nat, k: nat)
    requires i <= j <= k <= |s|
    requires IsScheme(s[..i]) && IsHost(s[i..j]) && IsPort(s[j..k]) && IsPath(s[k..])
    ensures i == SchemeLength(s)
    ensures j == Span(s, i, IsHostChar)
    ensures k == if j < |s| && s[j] == ':' then Span(s, j + 1, IsDigit) else j
  {
    SchemeUnique(s, i);
    PathStart(s[k..]);
    assert k < |s| ==> s[k] == s[k..][0];
    SplitPort(s, j, k);
    assert j < k ==> s[j] == s[j..k][0];
    SplitHost(s, i, j);
  }

  lemma ScanIsPattern(s: string)
    requires ScansAsUrl(s)
    ensures PatternBody(s)
  {
    var i := SchemeLength(s);
    var j := Span(s, i, IsHostChar);
    var k := if j < |s| && s[j] == ':' then Span(s, j + 1, IsDigit) else j;
    assert IsScheme(s[..i]) && IsHost(s[i..j]) && IsPort(s[j..k]) && IsPath(s[k..]);
  }

  lemma SplitScans(s: string, i: nat, j: nat, k: nat)
    requires i <= j <= k <= |s|
    requires IsScheme(s[..i]) && IsHost(s[i..j]) && IsPort(s[j..k]) && IsPath(s[k..])
    ensures ScansAsUrl(s)
  {
    SplitIsScan(s, i, j, k);
    SchemeLength6(s[..i]);
    ScanFromParts(s, i, j, k);
  }

  /** The scan accepts when the positions it finds delimit a host, a port and a path. */
  lemma ScanFromParts(s: string, i: nat, j: nat, k: nat)
    requires i == SchemeLength(s) && j == Span(s, i, IsHostChar)
    requires k == if j < |s| && s[j] == ':' then Span(s, j + 1, IsDigit) else j
    requires i > 0 && i <= j <= k <= |s|
    requires IsHost(s[i..j]) && IsPort(s[j..k]) && IsPath(s[k..])
    ensures ScansAsUrl(s)
  {
  }

  /** Every scheme has at least the six characters of `ftp://`. */
  lemma SchemeLength6(t: string)
    requires IsScheme(t)
    ensures |t| >= 6
  {
  }

  lemma PatternIsScan(s: string)
    requires PatternBody(s)
    ensures ScansAsUrl(s)
  {
    var i, j, k :| 0 <= i <= j <= k <= |s| &&
      IsScheme(s[..i]) && IsHost(s[i..j]) && IsPort(s[j..k]) && IsPath(s[k..]);
    SplitScans(s, i, j, k);
  }

  /** The scan accepts exactly the strings the pattern body matches. */
  lemma ScanDecidesPattern(s: string)
    ensures ScansAsUrl(s) <==> PatternBody(s)
  {
    if ScansAsUrl(s) {
      ScanIsPattern(s);
    }
    if PatternBody(s) {
      PatternIsScan(s);
    }
  }

  /** `is_valid_url` holds exactly when the regular expression matches. */
  lemma IsValidUrlMatchesPattern(text: string)
    ensures IsValidUrl(text) <==> MatchesUrlPattern(text)
  {
    ScanDecidesPattern(text);
    if |text| >= 1 {
      ScanDecidesPattern(text[..|text| - 1]);
    }
  }

  // ---------------------------------------------------------------------------
  // is_valid_url on examples
  // ---------------------------------------------------------------------------

  /** A label, a dot, then a top-level label or a domain, is a domain. */
  lemma DomainCons(l: string, rest: string)
    requires IsLabel(l) && (IsTld(rest) || IsDomain(rest))
    ensures IsDomain(l + "." + rest)
  {
    var h := l + "." + rest;
    assert h[|l|] == '.';
    assert forall k | 0 <= k < |l| :: h[k] == l[k] && IsLabelChar(l[k]);
    assert FirstDot(h) == Some(|l|);
    assert h[..|l|] == l && h[|l| + 1..] == rest;
  }

  lemma LetterLabels()
    ensures IsLabel("www") && IsLabel("youtube") && IsTld("com")
  {
    var www, youtube, com := "www", "youtube", "com";
    assert forall k | 0 <= k < |www| :: IsLetter(www[k]);
    assert forall k | 0 <= k < |youtube| :: IsLetter(youtube[k]);
    assert forall k | 0 <= k < |com| :: IsLetter(com[k]);
  }

  lemma YoutubeComDomain(h: string)
    requires h == "youtube.com"
    ensures IsDomain(h)
  {
    var l, rest := "youtube", "com";
    assert l + "." + rest == h;
    LetterLabels();
    DomainCons(l, rest);
  }

  lemma YoutubeDomain(h: string)
    requires h == "www.youtube.com"
    ensures IsDomain(h)
  {
    var l, rest := "www", "youtube.com";
    assert l + "." + rest == h;
    YoutubeComDomain(rest);
    LetterLabels();
    DomainCons(l, rest);
  }

  /** A scheme, a host and a path with no port make a scan succeed. */
  lemma ScanWithoutPort(s: string, i: nat, j: nat)
    requires 0 < i <= j < |s| && SchemeLength(s) == i && Span(s, i, IsHostChar) == j
    requires s[j] != ':' && IsHost(s[i..j]) && IsPath(s[j..])
    ensures ScansAsUrl(s)
  {
    assert s[j..j] == [];
  }

  lemma YoutubeScan(s: string)
    requires s == "https://www.youtube.com/watch?v=abc"
    ensures SchemeLength(s) == 8 && Span(s, 8, IsHostChar) == 23
  {
    assert s[..8] == "https://";
    assert IsScheme("https://");
    assert !IsHostChar(s[23]);
    assert forall k | 8 <= k < 23 :: IsHostChar(s[k]);
  }

  lemma YoutubeHost(s: string)
    requires s == "https://www.youtube.com/watch?v=abc"
    ensures IsHost(s[8..23])
  {
    var scheme, host, path := "https://", "www.youtube.com", "/watch?v=abc";
    assert scheme + host + path == s;
    YoutubeDomain(host);
    DomainIsMiddleHost(scheme, host, path);
  }

  /** A domain between two other parts is the host sliced out of their concatenation. */
  lemma DomainIsMiddleHost(a: string, b: string, c: string)
    requires IsDomain(b)
    ensures IsHost((a + b + c)[|a|..|a| + |b|])
  {
    assert (a + b + c)[|a|..|a| + |b|] == b;
  }

  lemma YoutubePath(s: string)
    requires s == "https://www.youtube.com/watch?v=abc"
    ensures |s| == 35 && s[23] != ':' && IsPath(s[23..])
  {
    var path := s[23..];
    assert path == "/watch?v=abc";
    assert forall k | 1 <= k < |path| :: !IsSpace(path[k]);
  }

  /** A typical video link is a URL. */
  lemma YoutubeUrl()
    ensures IsValidUrl("https://www.youtube.com/watch?v=abc")
  {
    var s := "https://www.youtube.com/watch?v=abc";
    YoutubeScan(s);
    YoutubeHost(s);
    YoutubePath(s);
    ScanWithoutPort(s, 8, 23);
  }

  /** Without a scheme there is no URL; in particular the exit command is none. */
  lemma NoSchemeIsNoUrl()
    ensures !IsValidUrl("www.youtube.com")
    ensures !IsValidUrl(ExitCommand)
  {
    var s := "www.youtube.com";
    assert s[..8][0] == 'w' && s[..7][0] == 'w' && s[..6][0] == 'w';
    assert SchemeLength(s) == 0;
    assert s[|s| - 1] == 'm';
    var e := ExitCommand;
    assert |e| == 5;
    assert SchemeLength(e) == 0;
    assert e[|e| - 1] == 'T';
  }

  lemma LocalhostScan(t: string)
    requires t == "http://localhost"
    ensures SchemeLength(t) == 7 && Span(t, 7, IsHostChar) == 16
  {
    assert t[..8][4] == ':';
    assert !IsScheme(t[..8]);
    assert t[..7] == "http://";
    assert IsScheme("http://");
    assert forall k | 7 <= k < 16 :: IsHostChar(t[k]);
  }

  /** A final newline is accepted, as `$` matches before it, though the scan
      of the whole text fails. */
  lemma LocalhostWithNewline()
    ensures IsValidUrl("http://localhost\n")
    ensures !ScansAsUrl("http://localhost\n")
  {
    var s := "http://localhost\n";
    var t := s[..|s| - 1];
    assert t == "http://localhost";
    LocalhostScan(t);
    assert t[7..16] == "localhost";
    assert SameIgnoringCase("localhost", "localhost");
    assert t[16..16] == [] && t[16..] == [];
    assert ScansAsUrl(t);
    assert s[..8] == t[..8] && s[..7] == t[..7];
    assert !IsHostChar(s[16]) && forall k | 7 <= k < 16 :: s[k] == t[k];
    assert Span(s, 7, IsHostChar) == 16;
    assert !IsPath(s[16..]);
  }

  // ---------------------------------------------------------------------------
  // log_url_to_csv and monitor_clipboard
  // ---------------------------------------------------------------------------

  /** One poll of the clipboard: its text and the `time.strftime` value a log
      row would carry at that moment. */
  datatype Sample = Sample(content: string, stamp: string)

  type LogRow = seq<string>

  const LogHeader: LogRow := ["Timestamp", "URL", "Title"]

  /** The clipboard text that ends the monitor. */
  const ExitCommand := "$EXIT"

  /** `log_url_to_csv(url)` on the log file, `None` when it does not exist yet. */
  function LogUrl(file: Option<seq<LogRow>>, stamp: string, url: string): (r: seq<LogRow>)
    ensures |r| == (if file.None? then 2 else |file.value| + 1)
    ensures r[|r| - 1] == [stamp, url, ""]
    ensures file.None? ==> r[0] == LogHeader
    ensures file.Some? ==> r[..|file.value|] == file.value
  {
    var existing := if file.None? then [LogHeader] else file.value;
    existing + [[stamp, url, ""]]
  }

  /** What the loop of `monitor_clipboard` keeps between polls, with the log file. */
  datatype Monitor = Monitor(history: seq<string>, last: string, log: Option<seq<LogRow>>)

  /** The length the history is held to: `history_size`, or 0 when it is negative. */
  function Capacity(historySize: int): nat {
    if historySize < 0 then 0 else historySize
  }

  /** The test a sample passes to be logged, given the URL test (`is_valid_url`
      in `monitor_clipboard`; the lemmas below hold for any test). */
  predicate Accepts(isUrl: string -> bool, last: string, content: string) {
    content != "" && content != last && isUrl(content)
  }

  /** One iteration of the loop for a sample other than `$EXIT`. */
  function Poll(isUrl: string -> bool, historySize: int, m: Monitor, sample: Sample): (r: Monitor)
    ensures !Accepts(isUrl, m.last, sample.content) ==> r == m
    ensures Accepts(isUrl, m.last, sample.content) ==>
              && r.last == sample.content
              && r.history <= [sample.content] + m.history
              && |r.history| == (if |m.history| + 1 > historySize then |m.history| else |m.history| + 1)
              && r.log == Some(LogUrl(m.log, sample.stamp, sample.content))
    ensures |m.history| <= Capacity(historySize) ==> |r.history| <= Capacity(historySize)
  {
    if Accepts(isUrl, m.last, sample.content) then
      var h := [sample.content] + m.history;
      var kept := if |h| > historySize then h[..|h| - 1] else h;
      Monitor(kept, sample.content, Some(LogUrl(m.log, sample.stamp, sample.content)))
    else m
  }

  /** The loop run over `samples` until `$EXIT` or the end of the samples. */
  function Watch(isUrl: string -> bool, historySize: int, m: Monitor, samples: seq<Sample>): Monitor
    decreases |samples|
  {
    if samples == [] || samples[0].content == ExitCommand then m
    else Watch(isUrl, historySize, Poll(isUrl, historySize, m, samples[0]), samples[1..])
  }

  /** The samples that get logged, in clipboard order, starting from `last`. */
  function Logged(isUrl: string -> bool, last: string, samples: seq<Sample>): seq<Sample>
    decreases |samples|
  {
    if samples == [] || samples[0].content == ExitCommand then []
    else if Accepts(isUrl, last, samples[0].content) then [samples[0]] + Logged(isUrl, samples[0].content, samples[1..])
    else Logged(isUrl, last, samples[1..])
  }

  /** `monitor_clipboard(history_size)` over the clipboard samples, starting
      with the log file `log`; `exited` says whether it saw `$EXIT`. */
  method MonitorClipboard(historySize: int, samples: seq<Sample>, log: Option<seq<LogRow>>)
    returns (history: seq<string>, last: string, logAfter: Option<seq<LogRow>>, exited: bool)
    ensures Monitor(history, last, logAfter) == Watch(IsValidUrl, historySize, Monitor([], "", log), samples)
    ensures exited <==> exists i | 0 <= i < |samples| :: samples[i].content == ExitCommand
  {
    history, last, logAfter := [], "", log;
    exited := false;
    var i := 0;
    while i < |samples|
      invariant 0 <= i <= |samples|
      invariant Watch(IsValidUrl, historySize, Monitor([], "", log), samples)
             == Watch(IsValidUrl, historySize, Monitor(history, last, logAfter), samples[i..])
      invariant forall k | 0 <= k < i :: samples[k].content != ExitCommand
    {
      ghost var before := Monitor(history, last, logAfter);
      assert samples[i..][0] == samples[i] && samples[i..][1..] == samples[i + 1..];
      if samples[i].content == ExitCommand {
        exited := true;
        break;
      }
      history, last, logAfter := PollClipboard(historySize, history, last, logAfter, samples[i]);
      i := i + 1;
    }
  }

  /** The body of the loop of `monitor_clipboard` for a sample other than `$EXIT`. */
  method PollClipboard(historySize: int, history: seq<string>, last: string, log: Option<seq<LogRow>>, sample: Sample)
    returns (history': seq<string>, last': string, log': Option<seq<LogRow>>)
    ensures Monitor(history', last', log') == Poll(IsValidUrl, historySize, Monitor(history, last, log), sample)
  {
    history', last', log' := history, last, log;
    var current := sample.content;
    if current != "" && current != last && IsValidUrl(current) {
      log' := Some(LogUrl(log, sample.stamp, current));
      history' := [current] + history;
      if |history'| > historySize {
        history' := history'[..|history'| - 1];
      }
      last' := current;
    }
  }

  /** The reverse of a sequence (the history lists the newest first). */
  function Reverse<T>(s: seq<T>): (r: seq<T>)
    ensures |r| == |s|
    ensures forall k | 0 <= k < |s| :: r[k] == s[|s| - 1 - k]
  {
    if s == [] then [] else Reverse(s[1..]) + [s[0]]
  }

  function Contents(samples: seq<Sample>): (r: seq<string>)
    ensures |r| == |samples|
    ensures forall k | 0 <= k < |samples| :: r[k] == samples[k].content
  {
    if samples == [] then [] else [samples[0].content] + Contents(samples[1..])
  }

  /** The rows `log_url_to_csv` appends for the logged samples, one each. */
  function Rows(logged: seq<Sample>): (r: seq<LogRow>)
    ensures |r| == |logged|
    ensures forall k | 0 <= k < |logged| :: r[k] == [logged[k].stamp, logged[k].content, ""]
  {
    if logged == [] then [] else [[logged[0].stamp, logged[0].content, ""]] + Rows(logged[1..])
  }

  /** The log file after `rows` have been appended by `log_url_to_csv`: the
      header is written first when the file did not exist. */
  function Appended(log: Option<seq<LogRow>>, rows: seq<LogRow>): Option<seq<LogRow>> {
    if rows == [] then log
    else Some((if log.None? then [LogHeader] else log.value) + rows)
  }

  /** One accepted sample: the monitor moves on from `Poll` and the sample
      heads the logged ones. */
  lemma WatchAccepts(isUrl: string -> bool, historySize: int, m: Monitor, samples: seq<Sample>)
    requires samples != [] && samples[0].content != ExitCommand
    requires Accepts(isUrl, m.last, samples[0].content)
    ensures Watch(isUrl, historySize, m, samples) == Watch(isUrl, historySize, Poll(isUrl, historySize, m, samples[0]), samples[1..])
    ensures Logged(isUrl, m.last, samples) == [samples[0]] + Logged(isUrl, samples[0].content, samples[1..])
  {
  }

  /** One rejected sample changes nothing. */
  lemma WatchRejects(isUrl: string -> bool, historySize: int, m: Monitor, samples: seq<Sample>)
    requires samples != [] && samples[0].content != ExitCommand
    requires !Accepts(isUrl, m.last, samples[0].content)
    ensures Watch(isUrl, historySize, m, samples) == Watch(isUrl, historySize, m, samples[1..])
    ensures Logged(isUrl, m.last, samples) == Logged(isUrl, m.last, samples[1..])
  {
  }

  lemma AppendedStep(log: Option<seq<LogRow>>, stamp: string, url: string, rest: seq<LogRow>)
    ensures Appended(Some(LogUrl(log, stamp, url)), rest) == Appended(log, [[stamp, url, ""]] + rest)
  {
    var base := if log.None? then [LogHeader] else log.value;
    assert LogUrl(log, stamp, url) == base + [[stamp, url, ""]];
    if rest == [] {
      assert [[stamp, url, ""]] + rest == [[stamp, url, ""]];
    } else {
      assert base + [[stamp, url, ""]] + rest == base + ([[stamp, url, ""]] + rest);
    }
  }

  /** The log file gains one row per logged sample, in order, and nothing else. */
  lemma {:induction false} WatchLog(isUrl: string -> bool, historySize: int, m: Monitor, samples: seq<Sample>)
    ensures Watch(isUrl, historySize, m, samples).log == Appended(m.log, Rows(Logged(isUrl, m.last, samples)))
    decreases |samples|
  {
    if samples != [] && samples[0].content != ExitCommand {
      var x := samples[0];
      if Accepts(isUrl, m.last, x.content) {
        WatchAccepts(isUrl, historySize, m, samples);
        var next := Poll(isUrl, historySize, m, x);
        WatchLog(isUrl, historySize, next, samples[1..]);
        var logged := Logged(isUrl, x.content, samples[1..]);
        assert Rows([x] + logged) == [[x.stamp, x.content, ""]] + Rows(logged);
        AppendedStep(m.log, x.stamp, x.content, Rows(logged));
      } else {
        WatchRejects(isUrl, historySize, m, samples);
        WatchLog(isUrl, historySize, m, samples[1..]);
      }
    }
  }

  /** Every logged sample is a non-empty valid URL, the first differs from the
      last known content and no two consecutive ones are equal. */
  predicate LoggedWell(isUrl: string -> bool, last: string, logged: seq<Sample>) {
    && (forall k | 0 <= k < |logged| :: logged[k].content != "" && isUrl(logged[k].content))
    && (logged != [] ==> logged[0].content != last)
    && (forall k | 0 < k < |logged| :: logged[k].content != logged[k - 1].content)
  }

  /** Every logged sample passes the test, and no sample is logged twice in a row. */
  lemma {:induction false} LoggedAreWell(isUrl: string -> bool, last: string, samples: seq<Sample>)
    ensures LoggedWell(isUrl, last, Logged(isUrl, last, samples))
    decreases |samples|
  {
    if samples != [] && samples[0].content != ExitCommand {
      if Accepts(isUrl, last, samples[0].content) {
        LoggedAreWell(isUrl, samples[0].content, samples[1..]);
      } else {
        LoggedAreWell(isUrl, last, samples[1..]);
      }
    }
  }

  /** The logged samples are taken from the input. */
  lemma {:induction false} LoggedFromInput(isUrl: string -> bool, last: string, samples: seq<Sample>)
    ensures multiset(Logged(isUrl, last, samples)) <= multiset(samples)
    decreases |samples|
  {
    if samples != [] && samples[0].content != ExitCommand {
      assert samples == [samples[0]] + samples[1..];
      if Accepts(isUrl, last, samples[0].content) {
        LoggedFromInput(isUrl, samples[0].content, samples[1..]);
      } else {
        LoggedFromInput(isUrl, last, samples[1..]);
      }
    }
  }

  /** No `$EXIT` sample is logged. */
  lemma {:induction false} LoggedBeforeExit(isUrl: string -> bool, last: string, samples: seq<Sample>)
    ensures forall x | x in Logged(isUrl, last, samples) :: x.content != ExitCommand
    decreases |samples|
  {
    if samples != [] && samples[0].content != ExitCommand {
      if Accepts(isUrl, last, samples[0].content) {
        LoggedBeforeExit(isUrl, samples[0].content, samples[1..]);
      } else {
        LoggedBeforeExit(isUrl, last, samples[1..]);
      }
    }
  }

  /** The logged samples are taken from the input before any `$EXIT`, and they
      are logged well. */
  lemma LoggedSamples(isUrl: string -> bool, last: string, samples: seq<Sample>)
    ensures LoggedWell(isUrl, last, Logged(isUrl, last, samples))
    ensures multiset(Logged(isUrl, last, samples)) <= multiset(samples)
    ensures forall x | x in Logged(isUrl, last, samples) :: x.content != ExitCommand
  {
    LoggedAreWell(isUrl, last, samples);
    LoggedFromInput(isUrl, last, samples);
    LoggedBeforeExit(isUrl, last, samples);
  }

  /** The last known content is the content of the last logged sample. */
  lemma {:induction false} WatchLast(isUrl: string -> bool, historySize: int, m: Monitor, samples: seq<Sample>)
    ensures var logged := Logged(isUrl, m.last, samples);
      Watch(isUrl, historySize, m, samples).last == (if logged == [] then m.last else logged[|logged| - 1].content)
    decreases |samples|
  {
    if samples != [] && samples[0].content != ExitCommand {
      var x := samples[0];
      if Accepts(isUrl, m.last, x.content) {
        WatchAccepts(isUrl, historySize, m, samples);
        var next := Poll(isUrl, historySize, m, x);
        WatchLast(isUrl, historySize, next, samples[1..]);
      } else {
        WatchRejects(isUrl, historySize, m, samples);
        WatchLast(isUrl, historySize, m, samples[1..]);
      }
    }
  }

  /** Truncating to `cap` before and after prepending `a` is truncating once. */
  lemma TruncateTwice<T>(a: seq<T>, b: seq<T>, cap: nat)
    ensures var b' := b[..Min(|b|, cap)];
      (a + b')[..Min(|a| + |b'|, cap)] == (a + b)[..Min(|a| + |b|, cap)]
  {
    var b' := b[..Min(|b|, cap)];
    var n := Min(|a| + |b|, cap);
    assert Min(|a| + |b'|, cap) == n;
    forall k | 0 <= k < n ensures (a + b')[k] == (a + b)[k] {
      if k >= |a| {
        assert (a + b')[k] == b'[k - |a|];
      }
    }
  }

  function Min(x: int, y: int): int {
    if x <= y then x else y
  }

  /** An accepted sample puts its URL at the front of a history held to
      `Capacity(history_size)` entries. */
  lemma PollHistory(isUrl: string -> bool, historySize: int, m: Monitor, x: Sample)
    requires |m.history| <= Capacity(historySize)
    requires Accepts(isUrl, m.last, x.content)
    ensures var h := [x.content] + m.history;
      Poll(isUrl, historySize, m, x).history == h[..Min(|h|, Capacity(historySize))]
  {
  }

  lemma ReverseContentsCons(x: Sample, logged: seq<Sample>)
    ensures Reverse(Contents([x] + logged)) == Reverse(Contents(logged)) + [x.content]
  {
    assert Contents([x] + logged) == [x.content] + Contents(logged);
  }

  /** The step of `WatchHistory` for an accepted first sample, given the
      statement for the samples after it. */
  lemma WatchHistoryAccepts(isUrl: string -> bool, historySize: int, m: Monitor, samples: seq<Sample>)
    requires samples != [] && samples[0].content != ExitCommand
    requires Accepts(isUrl, m.last, samples[0].content)
    requires |m.history| <= Capacity(historySize)
    requires var next := Poll(isUrl, historySize, m, samples[0]);
      var all := Reverse(Contents(Logged(isUrl, next.last, samples[1..]))) + next.history;
      Watch(isUrl, historySize, next, samples[1..]).history == all[..Min(|all|, Capacity(historySize))]
    ensures var all := Reverse(Contents(Logged(isUrl, m.last, samples))) + m.history;
      Watch(isUrl, historySize, m, samples).history == all[..Min(|all|, Capacity(historySize))]
  {
    var cap := Capacity(historySize);
    var x := samples[0];
    WatchAccepts(isUrl, historySize, m, samples);
    PollHistory(isUrl, historySize, m, x);
    var next := Poll(isUrl, historySize, m, x);
    assert next.last == x.content;
    var logged := Logged(isUrl, x.content, samples[1..]);
    var rest := Reverse(Contents(logged));
    ReverseContentsCons(x, logged);
    HistoryShift(rest, x.content, m.history, cap, next.history);
    assert Watch(isUrl, historySize, next, samples[1..]).history
      == (rest + next.history)[..Min(|rest + next.history|, cap)];
  }

  /** Truncating the history after pushing `c`, then again after putting
      `rest` in front, is putting `rest + [c]` in front once and truncating. */
  lemma HistoryShift<T>(rest: seq<T>, c: T, older: seq<T>, cap: nat, pushed: seq<T>)
    requires pushed == ([c] + older)[..Min(|[c] + older|, cap)]
    ensures (rest + pushed)[..Min(|rest + pushed|, cap)]
      == ((rest + [c]) + older)[..Min(|(rest + [c]) + older|, cap)]
  {
    TruncateTwice(rest, [c] + older, cap);
    assert rest + ([c] + older) == (rest + [c]) + older;
  }

  /** The history holds the most recently logged URLs, newest first, at most
      `Capacity(history_size)` of them. */
  lemma {:induction false} WatchHistory(isUrl: string -> bool, historySize: int, m: Monitor, samples: seq<Sample>)
    requires |m.history| <= Capacity(historySize)
    ensures var all := Reverse(Contents(Logged(isUrl, m.last, samples))) + m.history;
      Watch(isUrl, historySize, m, samples).history == all[..Min(|all|, Capacity(historySize))]
    decreases |samples|
  {
    var cap := Capacity(historySize);
    if samples == [] || samples[0].content == ExitCommand {
      assert Logged(isUrl, m.last, samples) == [];
      assert m.history[..|m.history|] == m.history;
    } else if Accepts(isUrl, m.last, samples[0].content) {
      var next := Poll(isUrl, historySize, m, samples[0]);
      PollHistory(isUrl, historySize, m, samples[0]);
      WatchHistory(isUrl, historySize, next, samples[1..]);
      WatchHistoryAccepts(isUrl, historySize, m, samples);
    } else {
      WatchRejects(isUrl, historySize, m, samples);
      WatchHistory(isUrl, historySize, m, samples[1..]);
    }
  }

  /** Nothing after the first `$EXIT` is read. */
  lemma {:induction false} ExitStopsMonitoring(isUrl: string -> bool, historySize: int, m: Monitor, before: seq<Sample>, exit: Sample, after: seq<Sample>)
    requires exit.content == ExitCommand
    ensures Watch(isUrl, historySize, m, before + [exit] + after) == Watch(isUrl, historySize, m, before)
    ensures Logged(isUrl, m.last, before + [exit] + after) == Logged(isUrl, m.last, before)
    decreases |before|
  {
    var all := before + [exit] + after;
    if before == [] {
      assert all[0] == exit;
    } else {
      assert all[0] == before[0];
      assert all[1..] == before[1..] + [exit] + after;
      if before[0].content != ExitCommand {
        ExitStopsMonitoring(isUrl, historySize, Poll(isUrl, historySize, m, before[0]), before[1..], exit, after);
        if Accepts(isUrl, m.last, before[0].content) {
          ExitStopsMonitoring(isUrl, historySize, Monitor(m.history, before[0].content, m.log), before[1..], exit, after);
        }
      }
    }
  }

  /** Every URL `monitor_clipboard` logs matches the URL pattern of `is_valid_url`. */
  lemma LoggedUrlsMatchPattern(last: string, samples: seq<Sample>)
    ensures forall x | x in Logged(IsValidUrl, last, samples) :: MatchesUrlPattern(x.content)
  {
    var logged := Logged(IsValidUrl, last, samples);
    LoggedSamples(IsValidUrl, last, samples);
    forall x | x in logged ensures MatchesUrlPattern(x.content) {
      var k :| 0 <= k < |logged| && logged[k] == x;
      IsValidUrlMatchesPattern(x.content);
    }
  }
}
