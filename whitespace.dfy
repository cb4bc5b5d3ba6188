/**
  Python's notion of whitespace and the two string operations the scraper
  builds on it: `str.strip()` (used by the markup library when it collects
  stripped text) and `_clean_text`, which is `" ".join(text.split())`.
 */
module Whitespace {

  /** Python's `str.isspace()` for one character: the characters that
      `str.split()` with no argument and `str.strip()` treat as whitespace. */
  predicate IsSpace(c: char)
  {
    var n := c as int;
    (9 <= n <= 13) || (28 <= n <= 32) || n == 0x85 || n == 0xA0 || n == 0x1680 ||
    (0x2000 <= n <= 0x200A) || n == 0x2028 || n == 0x2029 || n == 0x202F ||
    n == 0x205F || n == 0x3000
  }

  predicate AllSpace(s: string)
  {
    forall i :: 0 <= i < |s| ==> IsSpace(s[i])
  }

  predicate NoSpace(s: string)
  {
    forall i :: 0 <= i < |s| ==> !IsSpace(s[i])
  }

  /** Neither begins nor ends with whitespace. */
  predicate Trimmed(s: string)
  {
    s == [] || (!IsSpace(s[0]) && !IsSpace(s[|s| - 1]))
  }

  /** The shape `_clean_text` promises: trimmed, no whitespace other than
      the plain space, and never two spaces in a row. */
  predicate Normalized(s: string)
  {
    Trimmed(s) &&
    (forall i :: 0 <= i < |s| && IsSpace(s[i]) ==> s[i] == ' ') &&
    (forall i :: 0 <= i < |s| - 1 && s[i] == ' ' ==> s[i + 1] != ' ')
  }

  // ---------------------------------------------------------------------
  // str.strip()

  /** How many whitespace characters `s` begins with. */
  function LeadingSpaces(s: string): (k: nat)
    ensures k <= |s|
    ensures AllSpace(s[..k])
    ensures k == |s| || !IsSpace(s[k])
  {
    if s == [] || !IsSpace(s[0]) then 0 else 1 + LeadingSpaces(s[1..])
  }

  /** How many whitespace characters `s` ends with. */
  function TrailingSpaces(s: string): (k: nat)
    ensures k <= |s|
    ensures AllSpace(s[|s| - k..])
    ensures k == |s| || !IsSpace(s[|s| - k - 1])
  {
    if s == [] || !IsSpace(s[|s| - 1]) then 0
    else
      var t := s[..|s| - 1];
      var k := TrailingSpaces(t);
      assert s[|s| - (k + 1)..] == t[|t| - k..] + [s[|s| - 1]];
      k + 1
  }

  /** `s.strip()`: a slice `s[i..j]` of the input that is trimmed, with only
      whitespace cut away on either side. */
  function Strip(s: string): (r: string)
    ensures Trimmed(r)
    ensures |r| <= |s|
    ensures exists i :: 0 <= i <= |s| - |r| && r == s[i..i + |r|] &&
                        AllSpace(s[..i]) && AllSpace(s[i + |r|..])
  {
    var i := LeadingSpaces(s);
    var rest := s[i..];
    var j := TrailingSpaces(rest);
    var r := rest[..|rest| - j];
    assert r != [] ==> r[0] == s[i] && r[|r| - 1] == rest[|rest| - j - 1];
    assert r == s[i..i + |r|];
    assert s[i + |r|..] == rest[|rest| - j..];
    assert AllSpace(s[..i]) && AllSpace(s[i + |r|..]);
    r
  }

  /** `str.strip()` leaves a string that neither begins nor ends with
      whitespace unchanged; so stripping twice is stripping once. */
  lemma StripTrimmed(s: string)
    requires Trimmed(s)
    ensures Strip(s) == s
  {
    if s != [] {
      assert LeadingSpaces(s) == 0 && s[0..] == s;
      assert TrailingSpaces(s) == 0 && s[..|s| - 0] == s;
    }
  }

  // ---------------------------------------------------------------------
  // str.split() and " ".join(...)

  /** Length of the run of non-whitespace characters that starts `s`. */
  function WordLen(s: string): (k: nat)
    ensures k <= |s|
    ensures NoSpace(s[..k])
    ensures k == |s| || IsSpace(s[k])
  {
    if s == [] || IsSpace(s[0]) then 0 else 1 + WordLen(s[1..])
  }

  /** A list of pieces `str.split()` can return: none empty, none holding
      whitespace. */
  predicate AreWords(ws: seq<string>)
  {
    forall i :: 0 <= i < |ws| ==> ws[i] != [] && NoSpace(ws[i])
  }

  /** `s.split()`: the maximal runs of non-whitespace characters, in order. */
  function Words(s: string): (ws: seq<string>)
    ensures AreWords(ws)
    decreases |s|
  {
    if s == [] then []
    else if IsSpace(s[0]) then Words(s[1..])
    else
      var k := WordLen(s);
      [s[..k]] + Words(s[k..])
  }

  /** `" ".join(ws)`. */
  function Join(ws: seq<string>): string
  {
    if ws == [] then ""
    else if |ws| == 1 then ws[0]
    else ws[0] + " " + Join(ws[1..])
  }

  /** `_clean_text`: collapse every whitespace run to one space and drop
      leading and trailing whitespace (homesolutions_helper.py, `_clean_text`). */
  function Clean(s: string): (r: string)
    ensures Normalized(r)
    ensures Words(r) == Words(s)
  {
    var ws := Words(s);
    JoinIsNormalized(ws);
    WordsOfJoin(ws);
    Join(ws)
  }

  // ---------------------------------------------------------------------
  // Lemmas

  lemma JoinNonEmpty(ws: seq<string>)
    requires AreWords(ws) && ws != []
    ensures Join(ws) != [] && Join(ws)[0] == ws[0][0]
  {
  }

  /** Joining words with single spaces gives a normalized string. */
  lemma {:induction false} JoinIsNormalized(ws: seq<string>)
    requires AreWords(ws)
    ensures Normalized(Join(ws))
    decreases |ws|
  {
    if |ws| > 1 {
      var w, rest := ws[0], Join(ws[1..]);
      JoinIsNormalized(ws[1..]);
      JoinNonEmpty(ws[1..]);
      var s := w + " " + rest;
      assert Join(ws) == s;
      forall i | 0 <= i < |s| && IsSpace(s[i]) ensures s[i] == ' ' {
        if i > |w| { assert s[i] == rest[i - |w| - 1]; }
      }
      forall i | 0 <= i < |s| - 1 && s[i] == ' ' ensures s[i + 1] != ' ' {
        if i > |w| { assert s[i] == rest[i - |w| - 1]; }
      }
      assert s[|s| - 1] == rest[|rest| - 1];
    }
  }

  lemma {:induction false} WordLenOfWord(w: string, t: string)
    requires NoSpace(w)
    requires t == [] || IsSpace(t[0])
    ensures WordLen(w + t) == |w|
    decreases |w|
  {
    if w != [] {
      assert (w + t)[1..] == w[1..] + t;
      WordLenOfWord(w[1..], t);
    } else {
      assert w + t == t;
    }
  }

  /** `str.split()` undoes `" ".join` on a list of words. */
  lemma {:induction false} WordsOfJoin(ws: seq<string>)
    requires AreWords(ws)
    ensures Words(Join(ws)) == ws
    decreases |ws|
  {
    if ws == [] {
    } else if |ws| == 1 {
      var w := ws[0];
      WordLenOfWord(w, []);
      assert w + [] == w;
      assert w[|w|..] == [];
    } else {
      var w, rest := ws[0], Join(ws[1..]);
      var s := w + (" " + rest);
      assert Join(ws) == s;
      WordLenOfWord(w, " " + rest);
      assert s[..|w|] == w;
      assert s[|w|..] == " " + rest;
      assert (" " + rest)[1..] == rest;
      WordsOfJoin(ws[1..]);
    }
  }

  /** `_clean_text` is idempotent. */
  lemma CleanIdempotent(s: string)
    ensures Clean(Clean(s)) == Clean(s)
  {
  }

  /** Whitespace-only text cleans to the empty string. */
  lemma {:induction false} CleanOfBlank(s: string)
    requires AllSpace(s)
    ensures Words(s) == [] && Clean(s) == ""
    decreases |s|
  {
    if s != [] { CleanOfBlank(s[1..]); }
  }

  /** What follows the first word of a normalized string that has more
      than one word: one plain space, then a normalized rest that does not
      start with whitespace. */
  lemma NormalizedAfterWord(s: string, k: nat)
    requires Normalized(s) && k == WordLen(s) && k < |s|
    ensures s[k] == ' ' && k + 1 < |s| && !IsSpace(s[k + 1])
    ensures Normalized(s[k + 1..])
  {
    assert IsSpace(s[k]);
    assert s[k] == ' ';
    assert k != |s| - 1 by {
      assert !IsSpace(s[|s| - 1]);
    }
    assert s[k + 1] != ' ';
    assert !IsSpace(s[k + 1]);
    var t := s[k + 1..];
    assert Trimmed(t) by {
      assert t[0] == s[k + 1] && t[|t| - 1] == s[|s| - 1];
    }
    forall i | 0 <= i < |t| - 1 && t[i] == ' ' ensures t[i + 1] != ' ' {
      assert t[i] == s[k + 1 + i] && t[i + 1] == s[k + 2 + i];
    }
    forall i | 0 <= i < |t| && IsSpace(t[i]) ensures t[i] == ' ' {
      assert t[i] == s[k + 1 + i];
    }
  }

  /** A normalized string is already clean: `_clean_text` leaves exactly the
      normalized strings unchanged, so its result is the one normalized
      string with the input's words. */
  lemma {:induction false} CleanFixesNormalized(s: string)
    requires Normalized(s)
    ensures Join(Words(s)) == s
    decreases |s|
  {
    if s != [] {
      var k := WordLen(s);
      if k == |s| {
        assert s[k..] == [];
        assert s[..k] == s;
        assert Words(s) == [s];
      } else {
        NormalizedAfterWord(s, k);
        var t := s[k + 1..];
        assert s[k..][1..] == t;
        var wt := Words(t);
        assert Words(s) == [s[..k]] + wt;
        assert wt != [] && wt[0] == t[..WordLen(t)];
        CleanFixesNormalized(t);
        assert ([s[..k]] + wt)[1..] == wt;
        assert Join(Words(s)) == s[..k] + " " + t;
        assert s == s[..k] + [s[k]] + t;
      }
    }
  }

  /** `_clean_text(s) == s` exactly when `s` is normalized. */
  lemma CleanFixedPoints(s: string)
    ensures Clean(s) == s <==> Normalized(s)
  {
    if Normalized(s) { CleanFixesNormalized(s); }
  }
}
