/**
 * The legacy downloader's file naming (download_old.py): `sanitize_filename`
 * and the output template `download_mp3` builds from a song and an artist.
 */
module DownloadOld {
  import opened Text

  /** The characters the first substitution of `sanitize_filename` replaces:
      backslash, slash, star, question mark, colon, double quote, angle brackets, bar. */
  predicate IsForbidden(c: char) {
    c == '\\' || c == '/' || c == '*' || c == '?' || c == ':' || c == '"' || c == '<' || c == '>' || c == '|'
  }

  /** No two whitespace characters are adjacent, and every one is a plain space. */
  predicate SingleSpaced(s: string) {
    && (forall k | 0 <= k < |s| :: IsSpace(s[k]) ==> s[k] == ' ')
    && (forall k | 0 <= k < |s| - 1 :: !(IsSpace(s[k]) && IsSpace(s[k + 1])))
  }

  /** What `sanitize_filename` promises of its output. */
  predicate IsClean(s: string) {
    && (forall k | 0 <= k < |s| :: !IsForbidden(s[k]))
    && Trimmed(s)
    && SingleSpaced(s)
  }

  /** The first substitution of `sanitize_filename`: each forbidden character
      becomes `_`, one for one. */
  function ReplaceForbidden(s: string): (r: string)
    ensures |r| == |s|
    ensures forall k | 0 <= k < |s| :: r[k] == (if IsForbidden(s[k]) then '_' else s[k])
  {
    if s == [] then []
    else [if IsForbidden(s[0]) then '_' else s[0]] + ReplaceForbidden(s[1..])
  }

  /** `re.sub(r'\s+', ' ', s)`: every maximal whitespace run becomes one space. */
  function CollapseSpaces(s: string): (r: string)
    ensures |r| <= |s|
    decreases |s|
  {
    if s == [] then []
    else if IsSpace(s[0]) then [' '] + CollapseSpaces(TrimStart(s[1..]))
    else [s[0]] + CollapseSpaces(s[1..])
  }

  /** Only whitespace is dropped: the non-whitespace characters stay, in order. */
  lemma {:induction false} CollapseKeepsNonSpace(s: string)
    ensures NonSpace(CollapseSpaces(s)) == NonSpace(s)
    decreases |s|
  {
    if s != [] {
      var r := CollapseSpaces(s);
      if IsSpace(s[0]) {
        var t := TrimStart(s[1..]);
        NonSpaceTrimStart(s[1..]);
        CollapseKeepsNonSpace(t);
        assert r[1..] == CollapseSpaces(t);
      } else {
        CollapseKeepsNonSpace(s[1..]);
        assert r[1..] == CollapseSpaces(s[1..]);
      }
    }
  }

  /** A reference reading of the same substitution, built from the right by a
      rule local to each position: a whitespace character right after another
      one is dropped, any other whitespace character becomes a space, and every
      other character is kept. */
  function Squeeze(s: string): string
    decreases |s|
  {
    if s == [] then [] else Squeeze(s[..|s| - 1]) + Kept(s)
  }

  /** What `Squeeze` keeps of the last character of `s`. */
  function Kept(s: string): string
    requires s != []
  {
    var last := s[|s| - 1];
    if !IsSpace(last) then [last] else if |s| >= 2 && IsSpace(s[|s| - 2]) then [] else [' ']
  }

  /** `Squeeze` read from the left: one character in front of `t`. */
  lemma {:induction false} SqueezeCons(c: char, t: string)
    ensures Squeeze([c] + t) ==
      if !IsSpace(c) then [c] + Squeeze(t)
      else if t != [] && IsSpace(t[0]) then Squeeze(t)
      else [' '] + Squeeze(t)
    decreases |t|, 1
  {
    if !IsSpace(c) {
      SqueezeConsWord(c, t);
    } else if t != [] && IsSpace(t[0]) {
      SqueezeConsRun(c, t);
    } else {
      SqueezeConsSpace(c, t);
    }
  }

  /** A non-whitespace character in front is kept. */
  lemma {:induction false} SqueezeConsWord(c: char, t: string)
    requires !IsSpace(c)
    ensures Squeeze([c] + t) == [c] + Squeeze(t)
    decreases |t|, 0
  {
    SqueezeUnfold([c] + t);
    if t == [] {
      SqueezeOne(c);
    } else {
      var init := t[..|t| - 1];
      assert ([c] + t)[..|t|] == [c] + init;
      SqueezeUnfold(t);
      SqueezeCons(c, init);
      KeptShift(c, t);
      assert Squeeze([c] + t) == [c] + (Squeeze(init) + Kept(t));
    }
  }

  /** A whitespace character in front of more whitespace is dropped. */
  lemma {:induction false} SqueezeConsRun(c: char, t: string)
    requires IsSpace(c) && t != [] && IsSpace(t[0])
    ensures Squeeze([c] + t) == Squeeze(t)
    decreases |t|, 0
  {
    SqueezeUnfold([c] + t);
    SqueezeUnfold(t);
    var init := t[..|t| - 1];
    if |t| == 1 {
      assert ([c] + t)[..1] == [c];
      assert init == [];
      SqueezeOne(c);
    } else {
      assert ([c] + t)[..|t|] == [c] + init;
      assert init[0] == t[0];
      SqueezeCons(c, init);
      KeptShift(c, t);
    }
  }

  /** A whitespace character in front of anything else becomes a space. */
  lemma {:induction false} SqueezeConsSpace(c: char, t: string)
    requires IsSpace(c) && (t == [] || !IsSpace(t[0]))
    ensures Squeeze([c] + t) == [' '] + Squeeze(t)
    decreases |t|, 0
  {
    SqueezeUnfold([c] + t);
    if t == [] {
      SqueezeOne(c);
    } else {
      var init := t[..|t| - 1];
      assert ([c] + t)[..|t|] == [c] + init;
      SqueezeUnfold(t);
      KeptShift(c, t);
      if |t| == 1 {
        assert init == [];
        SqueezeOne(c);
      } else {
        assert init[0] == t[0];
        SqueezeCons(c, init);
        assert Squeeze([c] + t) == [' '] + (Squeeze(init) + Kept(t));
      }
    }
  }

  /** The last character is judged the same with or without a character in
      front, unless that character is its only neighbour. */
  lemma KeptShift(c: char, t: string)
    requires t != []
    ensures |t| >= 2 || !IsSpace(c) || !IsSpace(t[0]) ==> Kept([c] + t) == Kept(t)
  {
    assert ([c] + t)[|t|] == t[|t| - 1];
    if |t| >= 2 {
      assert ([c] + t)[|t| - 1] == t[|t| - 2];
    }
  }

  lemma SqueezeUnfold(s: string)
    requires s != []
    ensures Squeeze(s) == Squeeze(s[..|s| - 1]) + Kept(s)
  {
  }

  lemma SqueezeOne(c: char)
    ensures Squeeze([c]) == Kept([c])
  {
    assert [c][..0] == [];
  }

  /** `lstrip` of a string that starts with whitespace drops its first character too. */
  lemma TrimStartOfSpace(t: string)
    requires t != [] && IsSpace(t[0])
    ensures TrimStart(t) == TrimStart(t[1..])
  {
    var m := LeadingSpaces(t[1..]);
    assert LeadingSpaces(t) == 1 + m;
    assert t[1 + m..] == t[1..][m..];
  }

  /** A whitespace character followed by `t` squeezes to one space and the squeeze
      of `t` without its leading whitespace. */
  lemma {:induction false} SqueezeSpaceRun(c: char, t: string)
    requires IsSpace(c)
    ensures Squeeze([c] + t) == [' '] + Squeeze(TrimStart(t))
    decreases |t|
  {
    SqueezeCons(c, t);
    if t != [] && IsSpace(t[0]) {
      assert t == [t[0]] + t[1..];
      SqueezeSpaceRun(t[0], t[1..]);
      TrimStartOfSpace(t);
    } else {
      assert LeadingSpaces(t) == 0;
    }
  }

  /** The left-to-right collapse of whitespace runs is the position-local `Squeeze`. */
  lemma {:induction false} CollapseIsSqueeze(s: string)
    ensures CollapseSpaces(s) == Squeeze(s)
    decreases |s|
  {
    if s != [] {
      assert s == [s[0]] + s[1..];
      if IsSpace(s[0]) {
        SqueezeSpaceRun(s[0], s[1..]);
        CollapseIsSqueeze(TrimStart(s[1..]));
      } else {
        SqueezeCons(s[0], s[1..]);
        CollapseIsSqueeze(s[1..]);
      }
    }
  }

  /** The substitution of forbidden characters touches no whitespace. */
  lemma {:induction false} NonSpaceReplace(s: string)
    ensures NonSpace(ReplaceForbidden(s)) == ReplaceForbidden(NonSpace(s))
    decreases |s|
  {
    if s != [] {
      var r := ReplaceForbidden(s);
      var head := if IsSpace(s[0]) then [] else [s[0]];
      assert r[1..] == ReplaceForbidden(s[1..]);
      assert (if IsSpace(r[0]) then [] else [r[0]]) == ReplaceForbidden(head);
      NonSpaceReplace(s[1..]);
      ReplaceAppend(head, NonSpace(s[1..]));
    }
  }

  /** The substitution works character by character. */
  lemma ReplaceAppend(a: string, b: string)
    ensures ReplaceForbidden(a + b) == ReplaceForbidden(a) + ReplaceForbidden(b)
  {
    var l, r := ReplaceForbidden(a + b), ReplaceForbidden(a) + ReplaceForbidden(b);
    assert forall k | 0 <= k < |l| :: l[k] == r[k] by {
      forall k | 0 <= k < |l| ensures l[k] == r[k] {
        if k < |a| {
          assert (a + b)[k] == a[k];
        } else {
          assert (a + b)[k] == b[k - |a|];
        }
      }
    }
  }

  /** Each output character is a space or a non-whitespace character of the input. */
  lemma {:induction false} CollapseKeepsCharacters(s: string)
    ensures forall c | c in CollapseSpaces(s) :: c == ' ' || (!IsSpace(c) && c in s)
    decreases |s|
  {
    if s != [] {
      if IsSpace(s[0]) {
        var t := TrimStart(s[1..]);
        CollapseKeepsCharacters(t);
        assert forall c | c in t :: c in s by {
          assert t == s[|s| - |t|..];
        }
      } else {
        CollapseKeepsCharacters(s[1..]);
        assert forall c | c in s[1..] :: c in s;
      }
    }
  }

  /** The output starts and ends with the input's first and last characters
      when these are not whitespace. */
  lemma {:induction false} CollapseKeepsEnds(s: string)
    requires s != []
    ensures var r := CollapseSpaces(s);
      && (!IsSpace(s[0]) ==> r != [] && r[0] == s[0])
      && (!IsSpace(s[|s| - 1]) ==> r != [] && r[|r| - 1] == s[|s| - 1])
    decreases |s|
  {
    if IsSpace(s[0]) {
      var t := TrimStart(s[1..]);
      if !IsSpace(s[|s| - 1]) {
        assert t != [] && t[|t| - 1] == s[|s| - 1] by {
          assert t == s[1..][|s| - 1 - |t|..];
        }
        CollapseKeepsEnds(t);
      }
    } else if |s| > 1 {
      CollapseKeepsEnds(s[1..]);
    }
  }

  /** The output is single-spaced. */
  lemma {:induction false} CollapseSingleSpaced(s: string)
    ensures SingleSpaced(CollapseSpaces(s))
    decreases |s|
  {
    if s != [] {
      var r := CollapseSpaces(s);
      if IsSpace(s[0]) {
        var t := TrimStart(s[1..]);
        CollapseSingleSpaced(t);
        if t != [] {
          CollapseKeepsEnds(t);
        }
        assert r == [' '] + CollapseSpaces(t);
      } else {
        CollapseSingleSpaced(s[1..]);
        CollapseKeepsCharacters(s);
        assert r == [s[0]] + CollapseSpaces(s[1..]);
      }
    }
  }

  /** `sanitize_filename(s)`: the output never holds a forbidden character, has
      no whitespace at either end, is single-spaced, and is no longer than the input. */
  function Sanitize(s: string): (r: string)
    ensures IsClean(r)
    ensures |r| <= |s|
    ensures NonSpace(r) == ReplaceForbidden(NonSpace(s))
    ensures r == Squeeze(Strip(ReplaceForbidden(s)))
  {
    var x := ReplaceForbidden(s);
    assert forall k | 0 <= k < |x| :: !IsForbidden(x[k]);
    StripKeepsAllowed(x);
    CollapseOfTrimmedIsClean(Strip(x));
    NonSpaceStrip(x);
    NonSpaceReplace(s);
    CollapseKeepsNonSpace(Strip(x));
    CollapseIsSqueeze(Strip(x));
    CollapseSpaces(Strip(x))
  }

  /** `f"{song_name} {artist}"` passed through sanitisation, plus yt-dlp's extension field. */
  function OutputTemplate(songName: string, artist: string): (r: string)
    ensures |r| >= 8 && r[|r| - 8..] == ".%(ext)s"
    ensures IsClean(r[..|r| - 8])
    ensures r == Sanitize(songName + " " + artist) + ".%(ext)s"
  {
    var stem := Sanitize(songName + " " + artist);
    assert (stem + ".%(ext)s")[..|stem|] == stem;
    stem + ".%(ext)s"
  }

  /** A string that already satisfies `IsClean` comes out of the substitution unchanged. */
  lemma {:induction false} CollapseFixesSingleSpaced(s: string)
    requires SingleSpaced(s)
    ensures CollapseSpaces(s) == s
    decreases |s|
  {
    if s != [] {
      assert SingleSpaced(s[1..]);
      if IsSpace(s[0]) {
        assert s[1..] == [] || !IsSpace(s[1]);
        assert TrimStart(s[1..]) == s[1..];
      }
      CollapseFixesSingleSpaced(s[1..]);
    }
  }

  /** Collapsing the whitespace runs of a trimmed name free of forbidden
      characters gives a clean name. */
  lemma CollapseOfTrimmedIsClean(y: string)
    requires forall k | 0 <= k < |y| :: !IsForbidden(y[k])
    requires Trimmed(y)
    ensures IsClean(CollapseSpaces(y))
  {
    var r := CollapseSpaces(y);
    CollapseKeepsCharacters(y);
    CollapseSingleSpaced(y);
    if y != [] {
      CollapseKeepsEnds(y);
    }
    forall k | 0 <= k < |r| ensures !IsForbidden(r[k]) {
      assert r[k] in r;
    }
  }

  /** Stripping keeps a string free of forbidden characters. */
  lemma StripKeepsAllowed(x: string)
    requires forall k | 0 <= k < |x| :: !IsForbidden(x[k])
    ensures forall k | 0 <= k < |Strip(x)| :: !IsForbidden(Strip(x)[k])
  {
    StripIsSlice(x);
    var t := TrimStart(x);
    var y := TrimEnd(t);
    var i := |x| - |t|;
    forall k | 0 <= k < |y| ensures !IsForbidden(y[k]) {
      assert y[k] == x[i..i + |y|][k] == x[i + k];
    }
  }

  /** When replacing the forbidden characters leaves a clean name, that
      replacement is all `sanitize_filename` does. */
  lemma SanitizeReplacesOnly(s: string)
    requires IsClean(ReplaceForbidden(s))
    ensures Sanitize(s) == ReplaceForbidden(s)
  {
    var x := ReplaceForbidden(s);
    CollapseFixesSingleSpaced(x);
  }

  /** `sanitize_filename("a/b")` is `"a_b"`: the slash is replaced, nothing is dropped. */
  lemma SanitizeExample(s: string)
    requires s == "a/b"
    ensures Sanitize(s) == "a_b"
  {
    var x := ReplaceForbidden(s);
    assert x == "a_b";
    assert IsClean(x);
    SanitizeReplacesOnly(s);
  }

  /** A clean name is its own sanitisation. */
  lemma SanitizeFixesClean(s: string)
    requires IsClean(s)
    ensures Sanitize(s) == s
  {
    assert ReplaceForbidden(s) == s;
    CollapseFixesSingleSpaced(s);
  }

  /** `sanitize_filename` is idempotent. */
  lemma SanitizeIdempotent(s: string)
    ensures Sanitize(Sanitize(s)) == Sanitize(s)
  {
    SanitizeFixesClean(Sanitize(s));
  }

  /** A song and an artist that are already clean and non-empty give exactly
      `"{song_name} {artist}.%(ext)s"`. */
  lemma OutputTemplateOfCleanNames(songName: string, artist: string)
    requires IsClean(songName) && IsClean(artist)
    requires songName != [] && artist != []
    ensures OutputTemplate(songName, artist) == songName + " " + artist + ".%(ext)s"
  {
    var name := songName + " " + artist;
    assert forall k | 0 <= k < |name| :: name[k] == (if k < |songName| then songName[k] else if k == |songName| then ' ' else artist[k - |songName| - 1]);
    assert IsClean(name);
    SanitizeFixesClean(name);
  }
}
