/**
 * The MP3 file-name cleaner (remid.py, `clean_filenames`): for each `.mp3`
 * name of a directory listing, drop the `[...]` tag that sits right before a
 * lower-case `.mp3` ending (with the whitespace before it), and rename the
 * file to that name, or to `base (k).mp3` for the smallest free `k` when the
 * cleaned name is taken. The directory is a set of names; the listing is a
 * snapshot taken before the first rename.
 */
module Remid {
  import opened Wrappers
  import opened Text

  /** `filename.lower().endswith(".mp3")`. Only an ASCII letter lower-cases to
      `m` or `p`, so comparing the last four characters without ASCII case is
      the same test. */
  predicate IsMp3Name(name: string) {
    |name| >= 4 && SameIgnoringCase(name[|name| - 4..], ".mp3")
  }

  // ---------------------------------------------------------------------------
  // re.sub(r"\s*\[.*?\](?=\.mp3$)", "", filename)
  // ---------------------------------------------------------------------------

  /** `]` at `e` is followed by what the look-ahead `(?=\.mp3$)` accepts:
      `.mp3` at the end, or just before a final newline (Python's `$`). */
  predicate ClosesTag(s: string, e: nat) {
    e < |s| && s[e] == ']' && (s[e + 1..] == ".mp3" || s[e + 1..] == ".mp3\n")
  }

  /** The pattern matches `s[p..e + 1]`: whitespace from `p`, `[` at `q`,
      anything but a newline (`.*?`) up to the `]` at `e`. */
  predicate TagMatch(s: string, p: nat, q: nat, e: nat) {
    && p <= q < e
    && ClosesTag(s, e)
    && s[q] == '['
    && (forall k | p <= k < q :: IsSpace(s[k]))
    && (forall k | q < k < e :: s[k] != '\n')
  }

  /** At most one position closes a tag: the two endings differ in the last character. */
  lemma ClosesTagUnique(s: string, e1: nat, e2: nat)
    requires ClosesTag(s, e1) && ClosesTag(s, e2)
    ensures e1 == e2
  {
  }

  /** `s` ends with `].mp3`. */
  predicate EndsClosed(s: string) {
    && |s| >= 5
    && s[|s| - 5] == ']' && s[|s| - 4] == '.'
    && s[|s| - 3] == 'm' && s[|s| - 2] == 'p' && s[|s| - 1] == '3'
  }

  /** `s` ends with `].mp3` and a newline. */
  predicate EndsClosedLine(s: string) {
    && |s| >= 6
    && s[|s| - 6] == ']' && s[|s| - 5] == '.'
    && s[|s| - 4] == 'm' && s[|s| - 3] == 'p' && s[|s| - 2] == '3' && s[|s| - 1] == '\n'
  }

  /** The position of the `]` the look-ahead accepts, if any. */
  function TagClose(s: string): (e: Option<nat>)
    ensures e.Some? ==> ClosesTag(s, e.value)
    ensures e.None? ==> forall k: nat :: !ClosesTag(s, k)
  {
    if EndsClosed(s) then
      ClosedEnding(s);
      Some(|s| - 5)
    else if EndsClosedLine(s) then
      ClosedLineEnding(s);
      Some(|s| - 6)
    else
      NoClosingEnding(s);
      None
  }

  /** Without `].mp3` or `].mp3\n` at the end, no position closes a tag. */
  lemma NoClosingEnding(s: string)
    requires !EndsClosed(s) && !EndsClosedLine(s)
    ensures forall k: nat :: !ClosesTag(s, k)
  {
    forall k: nat ensures !ClosesTag(s, k) {
      if ClosesTag(s, k) {
        ClosesTagEnding(s, k);
      }
    }
  }

  lemma ClosedEnding(s: string)
    requires EndsClosed(s)
    ensures ClosesTag(s, |s| - 5)
  {
    assert s[|s| - 4..] == ".mp3";
  }

  lemma ClosedLineEnding(s: string)
    requires EndsClosedLine(s)
    ensures ClosesTag(s, |s| - 6)
  {
    assert s[|s| - 5..] == ".mp3\n";
  }

  /** A closing position sits five or six characters from the end. */
  lemma ClosesTagEnding(s: string, e: nat)
    requires ClosesTag(s, e)
    ensures (e == |s| - 5 && EndsClosed(s)) || (e == |s| - 6 && EndsClosedLine(s))
  {
    if s[e + 1..] == ".mp3" {
      assert s[e + 4] == s[e + 1..][3];
    } else {
      assert s[e + 5] == s[e + 1..][4];
    }
  }

  /** Start of the line that holds position `e`: `.` cannot cross a newline. */
  function LineStart(s: string, e: nat): (l: nat)
    requires e <= |s|
    ensures l <= e
    ensures forall k | l <= k < e :: s[k] != '\n'
    ensures l == 0 || s[l - 1] == '\n'
    decreases e
  {
    if e == 0 || s[e - 1] == '\n' then e else LineStart(s, e - 1)
  }

  /** The first `[` in `s[from..e]`, or `e` when there is none. */
  function FindOpen(s: string, from: nat, e: nat): (q: nat)
    requires from <= e <= |s|
    ensures from <= q <= e
    ensures q < e ==> s[q] == '['
    ensures forall k | from <= k < q :: s[k] != '['
    decreases e - from
  {
    if from == e || s[from] == '[' then from else FindOpen(s, from + 1, e)
  }

  /** Start of the whitespace run that ends at `q` (what greedy `\s*` spans). */
  function SpaceRunStart(s: string, q: nat): (p: nat)
    requires q <= |s|
    ensures p <= q
    ensures forall k | p <= k < q :: IsSpace(s[k])
    ensures p == 0 || !IsSpace(s[p - 1])
    decreases q
  {
    if q > 0 && IsSpace(s[q - 1]) then SpaceRunStart(s, q - 1) else q
  }

  /** Where a match of the pattern lies: whitespace from `p`, `[` at `q`, `]` at `e`. */
  datatype TagSpan = TagSpan(p: nat, q: nat, e: nat)

  /** Every match closes at the one closing position, and opens at or after
      the first `[` of its line. */
  lemma MatchesOpenLate(s: string, e: nat)
    requires ClosesTag(s, e)
    ensures forall p': nat, q': nat, e': nat | TagMatch(s, p', q', e') ::
              e' == e && FindOpen(s, LineStart(s, e), e) <= q'
  {
    var l := LineStart(s, e);
    forall p': nat, q': nat, e': nat | TagMatch(s, p', q', e')
      ensures e' == e && FindOpen(s, l, e) <= q'
    {
      ClosesTagUnique(s, e, e');
      assert l <= q';
    }
  }

  /** No match starts before the whitespace run that ends at the first `[`. */
  lemma NoEarlierMatch(s: string, q: nat, e: nat)
    requires q < e && ClosesTag(s, e) && s[q] == '['
    requires forall p': nat, q': nat, e': nat | TagMatch(s, p', q', e') :: e' == e && q <= q'
    ensures forall p': nat, q': nat, e': nat | p' < SpaceRunStart(s, q) :: !TagMatch(s, p', q', e')
  {
    var p := SpaceRunStart(s, q);
    forall p': nat, q': nat, e': nat | p' < p ensures !TagMatch(s, p', q', e') {
      if q' == q {
        var c := s[p - 1];
        assert TagMatch(s, p', q', e') ==> IsSpace(c);
      } else if q < q' {
        var c := s[q];
        assert TagMatch(s, p', q', e') ==> IsSpace(c);
      }
    }
  }

  /** The leftmost match of `\s*\[.*?\](?=\.mp3$)`, if the pattern matches. */
  function LeftmostTag(s: string): (m: Option<TagSpan>)
    ensures m.None? ==> forall p: nat, q: nat, e: nat :: !TagMatch(s, p, q, e)
    ensures m.Some? ==> TagMatch(s, m.value.p, m.value.q, m.value.e)
    ensures m.Some? ==> forall p': nat, q': nat, e': nat | p' < m.value.p :: !TagMatch(s, p', q', e')
  {
    match TagClose(s)
    case None => None
    case Some(e) =>
      var q := FindOpen(s, LineStart(s, e), e);
      MatchesOpenLate(s, e);
      if q == e then None
      else
        NoEarlierMatch(s, q, e);
        Some(TagSpan(SpaceRunStart(s, q), q, e))
  }

  /**
   * The bracket-stripping substitution. The name changes exactly when the
   * pattern matches somewhere; then the leftmost match is cut out and
   * nothing else changes. After a match only `.mp3` (and perhaps a newline)
   * is left, which holds no `[`, so `re.sub` never replaces twice.
   */
  function StripTag(s: string): (r: string)
    ensures r == s <==> forall p: nat, q: nat, e: nat :: !TagMatch(s, p, q, e)
    ensures r != s ==> exists p: nat, q: nat, e: nat ::
              && TagMatch(s, p, q, e)
              && r == s[..p] + s[e + 1..]
              && (forall p': nat, q': nat, e': nat | p' < p :: !TagMatch(s, p', q', e'))
  {
    match LeftmostTag(s)
    case None => s
    case Some(t) =>
      var r := s[..t.p] + s[t.e + 1..];
      assert |r| < |s|;
      r
  }

  // ---------------------------------------------------------------------------
  // os.path.splitext and the numbered candidates
  // ---------------------------------------------------------------------------

  /** Index of the last `.` in `s`, if any. */
  function LastDot(s: string): (d: Option<nat>)
    ensures d.Some? ==> d.value < |s| && s[d.value] == '.' && forall k | d.value < k < |s| :: s[k] != '.'
    ensures d.None? ==> forall k | 0 <= k < |s| :: s[k] != '.'
  {
    if s == [] then None
    else if s[|s| - 1] == '.' then Some(|s| - 1)
    else LastDot(s[..|s| - 1])
  }

  /**
   * `os.path.splitext` on a bare file name (a listing entry holds no path
   * separator): the extension runs from the last dot, unless only dots
   * precede it, in which case there is none.
   */
  function SplitExt(name: string): (r: (string, string))
    ensures r.0 + r.1 == name
    ensures r.1 == [] || (r.1[0] == '.' && forall k | 1 <= k < |r.1| :: r.1[k] != '.')
    ensures r.1 != [] ==> exists k | 0 <= k < |r.0| :: r.0[k] != '.'
  {
    match LastDot(name)
    case None => (name, [])
    case Some(d) =>
      if forall k | 0 <= k < d :: name[k] == '.' then (name, [])
      else (name[..d], name[d..])
  }

  /** `f"{base} ({counter}){ext}"` */
  function Candidate(base: string, counter: nat, ext: string): string {
    base + " (" + NatToString(counter) + ")" + ext
  }

  /** Different counters give different candidate names, all longer than `base + ext`. */
  lemma CandidateInjective(base: string, ext: string, m: nat, n: nat)
    requires Candidate(base, m, ext) == Candidate(base, n, ext)
    ensures m == n
  {
    var a, b := Candidate(base, m, ext), Candidate(base, n, ext);
    var sm, sn := NatToString(m), NatToString(n);
    assert |sm| == |sn|;
    assert sm == a[|base| + 2..|base| + 2 + |sm|];
    assert sn == b[|base| + 2..|base| + 2 + |sn|];
    NatToStringInjective(m, n);
  }

  /** The candidates numbered `1..n` are `n` distinct names. */
  lemma {:induction false} CandidateCount(base: string, ext: string, n: nat)
    ensures |set j | 1 <= j <= n :: Candidate(base, j, ext)| == n
  {
    if n > 0 {
      var before := set j | 1 <= j <= n - 1 :: Candidate(base, j, ext);
      var all := set j | 1 <= j <= n :: Candidate(base, j, ext);
      CandidateCount(base, ext, n - 1);
      CandidatesSplit(base, ext, n);
      if Candidate(base, n, ext) in before {
        var j :| 1 <= j <= n - 1 && Candidate(base, j, ext) == Candidate(base, n, ext);
        CandidateInjective(base, ext, j, n);
      }
    }
  }

  lemma CandidatesSplit(base: string, ext: string, n: nat)
    requires n > 0
    ensures (set j | 1 <= j <= n :: Candidate(base, j, ext))
      == (set j | 1 <= j <= n - 1 :: Candidate(base, j, ext)) + {Candidate(base, n, ext)}
  {
    var before := set j | 1 <= j <= n - 1 :: Candidate(base, j, ext);
    var all := set j | 1 <= j <= n :: Candidate(base, j, ext);
    forall x | x in all
      ensures x in before + {Candidate(base, n, ext)}
    {
      var j :| 1 <= j <= n && x == Candidate(base, j, ext);
      if j < n {
        assert x in before;
      }
    }
  }

  lemma {:induction false} SubsetSize<T>(a: set<T>, b: set<T>)
    requires a <= b
    ensures |a| <= |b|
    decreases |a|
  {
    if a != {} {
      var x :| x in a;
      SubsetSize(a - {x}, b - {x});
    }
  }

  /** A directory that holds the candidates `1..n` holds at least `n` names,
      one more when it also holds `base + ext`. */
  lemma CandidatesFit(dir: set<string>, base: string, ext: string, n: nat)
    requires forall j | 1 <= j <= n :: Candidate(base, j, ext) in dir
    ensures n <= |dir|
    ensures base + ext in dir ==> n < |dir|
  {
    var taken := set j | 1 <= j <= n :: Candidate(base, j, ext);
    CandidateCount(base, ext, n);
    SubsetSize(taken, dir);
    if base + ext in dir {
      assert base + ext !in taken;
      SubsetSize(taken + {base + ext}, dir);
    }
  }

  /** The smallest free candidate number from `k` on; a finite directory
      always leaves one free. */
  function FirstFree(dir: set<string>, base: string, ext: string, k: nat): (r: nat)
    requires 1 <= k
    requires forall j | 1 <= j < k :: Candidate(base, j, ext) in dir
    ensures k <= r
    ensures Candidate(base, r, ext) !in dir
    ensures forall j | 1 <= j < r :: Candidate(base, j, ext) in dir
    decreases |dir| + 1 - k
  {
    if Candidate(base, k, ext) !in dir then k
    else
      CandidatesFit(dir, base, ext, k);
      FirstFree(dir, base, ext, k + 1)
  }

  /** The name the file is renamed to: the cleaned name when it is free,
      else the candidate with the smallest free number. */
  function ChosenName(dir: set<string>, cleaned: string): (r: string)
    ensures r !in dir
    ensures cleaned !in dir ==> r == cleaned
    ensures cleaned in dir ==> exists k | k >= 1 ::
              && r == Candidate(SplitExt(cleaned).0, k, SplitExt(cleaned).1)
              && forall j | 1 <= j < k :: Candidate(SplitExt(cleaned).0, j, SplitExt(cleaned).1) in dir
  {
    if cleaned !in dir then cleaned
    else
      var (base, ext) := SplitExt(cleaned);
      Candidate(base, FirstFree(dir, base, ext, 1), ext)
  }

  /** The conflict-resolution loop of `clean_filenames`. */
  method ResolveConflict(dir: set<string>, cleaned: string) returns (name: string)
    ensures name == ChosenName(dir, cleaned)
  {
    var base, ext := SplitExt(cleaned).0, SplitExt(cleaned).1;
    name := cleaned;
    if name in dir {
      var counter := 1;
      while name in dir
        invariant 1 <= counter
        invariant forall j | 1 <= j < counter - 1 :: Candidate(base, j, ext) in dir
        invariant name == if counter == 1 then cleaned else Candidate(base, counter - 1, ext)
        decreases |dir| + 1 - counter
      {
        CandidatesFit(dir, base, ext, counter - 1);
        name := Candidate(base, counter, ext);
        counter := counter + 1;
      }
      assert counter - 1 == FirstFree(dir, base, ext, 1);
    }
  }

  // ---------------------------------------------------------------------------
  // The directory and the per-file step
  // ---------------------------------------------------------------------------

  /** The new name a listed file gets, or `None` when it is left alone
      (not an `.mp3`, or no tag to strip). */
  function Target(dir: set<string>, name: string): (t: Option<string>)
    ensures !IsMp3Name(name) ==> t == None
    ensures IsMp3Name(name) && StripTag(name) != name ==> t.Some?
    ensures t.Some? ==> IsMp3Name(name) && StripTag(name) != name && t.value == ChosenName(dir, StripTag(name)) && t.value !in dir
    ensures t.Some? && name in dir ==> t.value != name
  {
    if !IsMp3Name(name) then None
    else
      var cleaned := StripTag(name);
      if cleaned == name then None else Some(ChosenName(dir, cleaned))
  }

  /** The directory after the loop body for one listed name; `renamed` is
      whether `os.rename` succeeds. */
  function Step(dir: set<string>, name: string, renamed: bool): (r: set<string>)
    ensures !renamed ==> r == dir
    ensures renamed && Target(dir, name).Some? ==> r == dir - {name} + {Target(dir, name).value}
    ensures forall x | x in dir && x != name :: x in r
    ensures forall x | x in r && x !in dir :: Target(dir, name) == Some(x)
    ensures name in dir ==> |r| == |dir|
  {
    match Target(dir, name)
    case None => dir
    case Some(n) =>
      if renamed then
        var r := dir - {name} + {n};
        RenameFacts(dir, name, n, r);
        r
      else dir
  }

  /** Renaming an entry to a name not yet taken keeps every other entry, adds
      only the new name and keeps the number of entries. */
  lemma RenameFacts(dir: set<string>, name: string, n: string, r: set<string>)
    requires n !in dir && r == dir - {name} + {n}
    ensures forall x | x in dir && x != name :: x in r
    ensures forall x | x in r && x !in dir :: x == n
    ensures name in dir ==> |r| == |dir|
  {
    if name in dir {
      assert |dir - {name}| == |dir| - 1;
    }
  }

  /** The directory after the first `n` names of the listing were processed. */
  function Cleaned(dir: set<string>, listing: seq<string>, renamed: nat -> bool, n: nat): set<string>
    requires n <= |listing|
  {
    if n == 0 then dir
    else Step(Cleaned(dir, listing, renamed, n - 1), listing[n - 1], renamed(n - 1))
  }

  /** `listing` names every entry of `dir` exactly once (what `os.listdir` returns). */
  predicate Enumerates(listing: seq<string>, dir: set<string>) {
    && (forall i, j | 0 <= i < j < |listing| :: listing[i] != listing[j])
    && (forall i | 0 <= i < |listing| :: listing[i] in dir)
    && |listing| == |dir|
  }

  class Folder {
    var entries: set<string>

    constructor (entries: set<string>)
      ensures this.entries == entries
    {
      this.entries := entries;
    }

    /** `os.rename(source, target)`; `succeeds` says whether it raised `OSError`. */
    method Rename(source: string, target: string, succeeds: bool)
      modifies this
      ensures entries == if succeeds then old(entries) - {source} + {target} else old(entries)
    {
      if succeeds {
        entries := entries - {source} + {target};
      }
    }
  }

  /** `clean_filenames`: one pass over the snapshot `listing`; `renamed(i)`
      says whether renaming the `i`-th listed file succeeds. */
  method CleanFilenames(folder: Folder, listing: seq<string>, renamed: nat -> bool)
    requires Enumerates(listing, folder.entries)
    modifies folder
    ensures folder.entries == Cleaned(old(folder.entries), listing, renamed, |listing|)
  {
    for i := 0 to |listing|
      invariant folder.entries == Cleaned(old(folder.entries), listing, renamed, i)
    {
      var filename := listing[i];
      if IsMp3Name(filename) {
        var cleaned := StripTag(filename);
        if cleaned != filename {
          var finalName := ResolveConflict(folder.entries, cleaned);
          folder.Rename(filename, finalName, renamed(i));
        }
      }
    }
  }

  // ---------------------------------------------------------------------------
  // What one pass does to the directory
  // ---------------------------------------------------------------------------

  /** A pass keeps the number of files, and every name not yet processed is
      still there when its turn comes (so each rename has a source). */
  lemma {:induction false} CleanedKeepsCount(dir: set<string>, listing: seq<string>, renamed: nat -> bool, n: nat)
    requires Enumerates(listing, dir)
    requires n <= |listing|
    ensures |Cleaned(dir, listing, renamed, n)| == |dir|
    ensures forall i | n <= i < |listing| :: listing[i] in Cleaned(dir, listing, renamed, n)
  {
    if n > 0 {
      CleanedKeepsCount(dir, listing, renamed, n - 1);
      var before := Cleaned(dir, listing, renamed, n - 1);
      var name := listing[n - 1];
      forall i | n <= i < |listing| ensures listing[i] in Cleaned(dir, listing, renamed, n) {
        assert listing[i] in before && listing[i] != name;
      }
    }
  }

  /** A name leaves the directory only when it was listed, ends in `.mp3` and
      carries a tag to strip; in particular no other file is ever touched. */
  lemma {:induction false} OnlyTaggedMp3Leave(dir: set<string>, listing: seq<string>, renamed: nat -> bool, n: nat)
    requires n <= |listing|
    ensures forall x | x in dir && x !in Cleaned(dir, listing, renamed, n) ::
              && x in listing[..n]
              && IsMp3Name(x)
              && StripTag(x) != x
  {
    if n > 0 {
      OnlyTaggedMp3Leave(dir, listing, renamed, n - 1);
      var before := Cleaned(dir, listing, renamed, n - 1);
      var name := listing[n - 1];
      assert listing[..n] == listing[..n - 1] + [name];
      forall x | x in dir && x !in Cleaned(dir, listing, renamed, n)
        ensures x in listing[..n] && IsMp3Name(x) && StripTag(x) != x
      {
        if x in before {
          assert x == name;
          assert Target(before, name).Some?;
        }
      }
    }
  }

  /** A name present after step `i` that no later listed name equals is
      present to the end: a step removes only the name it processes. */
  lemma {:induction false} StaysPresent(dir: set<string>, listing: seq<string>, renamed: nat -> bool, i: nat, t: string, n: nat)
    requires i < n <= |listing|
    requires t in Cleaned(dir, listing, renamed, i + 1)
    requires forall j | i < j < |listing| :: listing[j] != t
    ensures t in Cleaned(dir, listing, renamed, n)
    decreases n
  {
    if n > i + 1 {
      StaysPresent(dir, listing, renamed, i, t, n - 1);
      assert listing[n - 1] != t;
    }
  }

  /** A successful rename of a listed, tagged `.mp3` name takes effect: the
      name is gone right after its step, and its target is there from then
      to the end of the pass. Later steps only remove later listed names,
      which were still present when the target was chosen as a free name. */
  lemma RenameTakesEffect(dir: set<string>, listing: seq<string>, renamed: nat -> bool, i: nat, n: nat)
    requires Enumerates(listing, dir)
    requires i < n <= |listing| && renamed(i)
    requires Target(Cleaned(dir, listing, renamed, i), listing[i]).Some?
    ensures listing[i] !in Cleaned(dir, listing, renamed, i + 1)
    ensures Target(Cleaned(dir, listing, renamed, i), listing[i]).value in Cleaned(dir, listing, renamed, n)
  {
    var before := Cleaned(dir, listing, renamed, i);
    var name := listing[i];
    var t := Target(before, name).value;
    CleanedKeepsCount(dir, listing, renamed, i);
    assert name in before;
    assert Cleaned(dir, listing, renamed, i + 1) == before - {name} + {t};
    assert forall j | i < j < |listing| :: listing[j] in before;
    StaysPresent(dir, listing, renamed, i, t, n);
  }

  /** A pass in which every rename fails leaves the directory as it was. */
  lemma {:induction false} FailedRenamesChangeNothing(dir: set<string>, listing: seq<string>, renamed: nat -> bool, n: nat)
    requires n <= |listing|
    requires forall i | 0 <= i < n :: !renamed(i)
    ensures Cleaned(dir, listing, renamed, n) == dir
  {
    if n > 0 {
      FailedRenamesChangeNothing(dir, listing, renamed, n - 1);
    }
  }

  /** A match that no other match starts before is the one cut out. */
  lemma StripTagCutsMatch(s: string, p: nat, q: nat, e: nat)
    requires TagMatch(s, p, q, e)
    requires forall p': nat, q': nat, e': nat | p' < p :: !TagMatch(s, p', q', e')
    ensures StripTag(s) == s[..p] + s[e + 1..]
  {
    var r := StripTag(s);
    var p2: nat, q2: nat, e2: nat :| TagMatch(s, p2, q2, e2) && r == s[..p2] + s[e2 + 1..]
      && (forall p': nat, q': nat, e': nat | p' < p2 :: !TagMatch(s, p', q', e'));
    ClosesTagUnique(s, e, e2);
    assert !(p < p2) && !(p2 < p);
  }

  /** No match starts before `p` when no `[` comes before it and the
      character just before it is not whitespace. */
  lemma NoMatchBefore(s: string, p: nat)
    requires 1 <= p <= |s| && !IsSpace(s[p - 1])
    requires forall k | 0 <= k < p :: s[k] != '['
    ensures forall p': nat, q': nat, e': nat | p' < p :: !TagMatch(s, p', q', e')
  {
    forall p': nat, q': nat, e': nat | p' < p ensures !TagMatch(s, p', q', e') {
      if p <= q' {
        var c := s[p - 1];
        assert TagMatch(s, p', q', e') ==> IsSpace(c);
      }
    }
  }

  /** The rewrite on the name the source's comment uses. */
  lemma StripTagExample(s: string)
    requires s == "Song [192kbps].mp3"
    ensures StripTag(s) == "Song.mp3"
  {
    assert s[..4] + s[14..] == "Song.mp3";
    assert TagMatch(s, 4, 5, 13);
    NoMatchBefore(s, 4);
    StripTagCutsMatch(s, 4, 5, 13);
  }

  /** Everything from the first bracket of the last line, with the blank before it, goes. */
  lemma StripTagFromFirstBracket(s: string)
    requires s == "A [x] B [y].mp3"
    ensures StripTag(s) == "A.mp3"
  {
    assert s[..1] + s[11..] == "A.mp3";
    assert TagMatch(s, 1, 2, 10);
    NoMatchBefore(s, 1);
    StripTagCutsMatch(s, 1, 2, 10);
  }

  lemma NoMatchBeforeLineBreak(s: string)
    requires s == "A [b]\n[x].mp3"
    ensures forall p': nat, q': nat, e': nat | p' < 5 :: !TagMatch(s, p', q', e')
  {
    var c4, c5 := s[4], s[5];
    assert c4 == ']' && c5 == '\n';
    forall p': nat, q': nat, e': nat | p' < 5 ensures !TagMatch(s, p', q', e') {
      if ClosesTag(s, e') {
        ClosesTagUnique(s, 8, e');
      }
      if q' < 6 {
        assert TagMatch(s, p', q', e') ==> q' == 2 && c5 != '\n';
      } else {
        assert TagMatch(s, p', q', e') ==> IsSpace(c4);
      }
    }
  }

  lemma StripTagOfTagged(t: string)
    requires t == "A [b].mp3"
    ensures StripTag(t) == "A.mp3"
  {
    assert t[..1] + t[5..] == "A.mp3";
    assert TagMatch(t, 1, 2, 4);
    NoMatchBefore(t, 1);
    StripTagCutsMatch(t, 1, 2, 4);
  }

  /** `.` stops at a newline but `\s*` does not, so in a name holding a
      newline the match can start on the line break and leave an earlier
      bracket in place: the cleaned name is itself a tagged `.mp3` name, and
      a later rename can give a pass a name it renamed away before. */
  lemma StripTagAcrossNewline(s: string)
    requires s == "A [b]\n[x].mp3"
    ensures StripTag(s) == "A [b].mp3"
    ensures StripTag(StripTag(s)) != StripTag(s)
  {
    assert s[..5] + s[9..] == "A [b].mp3";
    assert TagMatch(s, 5, 6, 8);
    NoMatchBeforeLineBreak(s);
    StripTagCutsMatch(s, 5, 6, 8);
    StripTagOfTagged(StripTag(s));
  }

  /** An upper-case `.MP3` passes the filter but keeps its tag. */
  lemma StripTagNeedsLowerCaseExtension()
    ensures IsMp3Name("Song [x].MP3")
    ensures StripTag("Song [x].MP3") == "Song [x].MP3"
  {
    var s := "Song [x].MP3";
    assert s[|s| - 4..] == ".MP3";
    assert s[|s| - 5..] != "].mp3" by {
      assert s[|s| - 5..][2] == 'M';
    }
    assert s[|s| - 6..] != "].mp3\n" by {
      assert s[|s| - 6..][5] == '3';
    }
    assert TagClose(s) == None;
  }

  /** A dot after the first non-dot character with no dot after it splits
      the name there. */
  lemma SplitExtAt(name: string, d: nat)
    requires d < |name| && name[d] == '.'
    requires forall k | d < k < |name| :: name[k] != '.'
    requires exists k | 0 <= k < d :: name[k] != '.'
    ensures SplitExt(name) == (name[..d], name[d..])
  {
    assert LastDot(name) == Some(d);
  }

  lemma SongCandidates()
    ensures Candidate("Song", 1, ".mp3") == "Song (1).mp3"
    ensures Candidate("Song", 2, ".mp3") == "Song (2).mp3"
  {
    assert NatToString(1) == "1" && NatToString(2) == "2";
  }

  /** Files named `Song.mp3` and `Song (1).mp3` push the cleaned name to `Song (2).mp3`. */
  lemma ChosenNameExample()
    ensures ChosenName({"Song.mp3", "Song (1).mp3"}, "Song.mp3") == "Song (2).mp3"
  {
    var dir := {"Song.mp3", "Song (1).mp3"};
    var s := "Song.mp3";
    assert s == "Song" + ".mp3";
    assert s[..4] == "Song";
    assert s[4..] == ".mp3";
    assert s[4] == '.' && s[0] != '.';
    assert forall k | 4 < k < |s| :: s[k] != '.';
    SplitExtAt(s, 4);
    SongCandidates();
    assert FirstFree(dir, "Song", ".mp3", 2) == 2;
    assert FirstFree(dir, "Song", ".mp3", 1) == 2;
  }
}
