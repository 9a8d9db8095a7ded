/** The name under which customers count as the same person. */
module CustomerNames {
  import opened Strings

  /** Every run of white space becomes one blank. */
  function Collapse(s: string): string
    decreases |s|
  {
    if s == "" then ""
    else if IsSpace(s[0]) then
      TrimStartShortens(s);
      " " + Collapse(TrimStart(s))
    else [s[0]] + Collapse(s[1..])
  }

  lemma TrimStartShortens(s: string)
    requires s != "" && IsSpace(s[0])
    ensures |TrimStart(s)| < |s|
  {
    if s[1..] != "" && IsSpace(s[1]) { TrimStartShortens(s[1..]); }
  }

  /** `lower` is the platform's toLowerCase. */
  function Normalize(lower: string -> string, name: string): string { lower(Collapse(Trim(name))) }

  /* ---------- what "the same name" means ---------- */

  /** The words of a name: its maximal runs of other characters than white space. */
  function Words(s: string): seq<string>
    decreases |s|
  {
    if s == "" then []
    else if IsSpace(s[0]) then Words(s[1..])
    else if |s| == 1 || IsSpace(s[1]) then [[s[0]]] + Words(s[1..])
    else
      var rest := Words(s[1..]);
      if rest == [] then [[s[0]]] else [[s[0]] + rest[0]] + rest[1..]
  }

  function Joined(words: seq<string>): string {
    if words == [] then "" else if |words| == 1 then words[0] else words[0] + " " + Joined(words[1..])
  }

  /** A word is not empty and holds no white space. */
  predicate IsWord(w: string) { w != "" && forall k | 0 <= k < |w| :: !IsSpace(w[k]) }

  predicate AreWords(words: seq<string>) { forall i | 0 <= i < |words| :: IsWord(words[i]) }

  lemma WordGrows(c: char, w: string)
    requires IsWord(w) && !IsSpace(c)
    ensures IsWord([c] + w)
  {
  }

  lemma {:induction false} WordsAreWords(s: string)
    ensures AreWords(Words(s))
    ensures s != "" && !IsSpace(s[0]) ==> Words(s) != []
    decreases |s|
  {
    if s != "" {
      WordsAreWords(s[1..]);
      if !IsSpace(s[0]) && |s| > 1 && !IsSpace(s[1]) {
        WordGrows(s[0], Words(s[1..])[0]);
      }
    }
  }

  lemma {:induction false} WordsSkipSpace(s: string)
    ensures Words(TrimStart(s)) == Words(s)
    decreases |s|
  {
    if s != "" && IsSpace(s[0]) { WordsSkipSpace(s[1..]); }
  }

  /** Neither end of the text is white space. */
  predicate Trimmed(s: string) { s == "" || (!IsSpace(s[0]) && !IsSpace(s[|s| - 1])) }

  /** A word of one character, then white space, then the rest. */
  lemma LoneCharacter(s: string)
    requires |s| > 1 && !IsSpace(s[0]) && IsSpace(s[1])
    ensures var rest := TrimStart(s[1..]);
      |rest| < |s| && Collapse(s) == [s[0]] + (" " + Collapse(rest)) && Words(s) == [[s[0]]] + Words(rest)
  {
    TrimStartShortens(s[1..]);
    WordsSkipSpace(s[1..]);
  }

  /** A trimmed name collapses to its words, joined by single blanks. */
  lemma {:induction false} CollapseJoins(s: string)
    requires Trimmed(s)
    ensures Collapse(s) == Joined(Words(s))
    decreases |s|
  {
    if |s| == 1 {
      assert Words(s[1..]) == [] && Words(s) == [[s[0]]] && Collapse(s[1..]) == "";
    } else if |s| > 1 && IsSpace(s[1]) {
      var rest := TrimStart(s[1..]);
      LoneCharacter(s);
      TrimStartEnd(s[1..]);
      CollapseJoins(rest);
      WordsAreWords(rest);
      assert Words(s)[1..] == Words(rest);
    } else if |s| > 1 {
      CollapseJoins(s[1..]);
      WordsAreWords(s[1..]);
      JoinedFirst(s[0], Words(s[1..]));
    }
  }

  lemma JoinedFirst(c: char, words: seq<string>)
    requires words != []
    ensures Joined([[c] + words[0]] + words[1..]) == [c] + Joined(words)
  {
    if |words| > 1 {
      assert ([[c] + words[0]] + words[1..])[1..] == words[1..];
    }
  }

  lemma {:induction false} TrimStartEnd(s: string)
    requires s != "" && !IsSpace(s[|s| - 1])
    ensures TrimStart(s) != "" && !IsSpace(TrimStart(s)[|TrimStart(s)| - 1])
    decreases |s|
  {
    if IsSpace(s[0]) { TrimStartEnd(s[1..]); }
  }

  lemma JoinedBlank(v: seq<string>)
    requires AreWords(v)
    ensures Joined(v) == "" <==> v == []
  {
    if v != [] {
      assert IsWord(v[0]) && v[0] <= Joined(v);
    }
  }

  lemma {:induction false} JoinedDetermines(v: seq<string>, w: seq<string>)
    requires AreWords(v) && AreWords(w) && Joined(v) == Joined(w)
    ensures v == w
    decreases |v|
  {
    JoinedBlank(v);
    JoinedBlank(w);
    if v != [] && w != [] {
      FirstWordSame(v, w);
      if |v| > 1 && |w| > 1 {
        assert Joined(v)[|v[0]| + 1..] == Joined(v[1..]) && Joined(w)[|v[0]| + 1..] == Joined(w[1..]);
        JoinedDetermines(v[1..], w[1..]);
      } else {
        assert |Joined(v)| == |v[0]| <==> |v| == 1;
        assert |Joined(w)| == |w[0]| <==> |w| == 1;
      }
    }
  }

  /** The first word ends where the joined text has its first blank, or ends. */
  predicate FirstWordEnds(text: string, n: nat) {
    n <= |text| && (forall k | 0 <= k < n :: !IsSpace(text[k])) && (n < |text| ==> IsSpace(text[n]))
  }

  lemma JoinedFirstWord(v: seq<string>)
    requires v != [] && AreWords(v)
    ensures v[0] <= Joined(v) && FirstWordEnds(Joined(v), |v[0]|)
  {
    assert IsWord(v[0]) && v[0] <= Joined(v);
    forall k | 0 <= k < |v[0]| ensures !IsSpace(Joined(v)[k]) {
      assert Joined(v)[k] == v[0][k];
    }
  }

  lemma FirstWordSame(v: seq<string>, w: seq<string>)
    requires v != [] && w != [] && AreWords(v) && AreWords(w) && Joined(v) == Joined(w)
    ensures v[0] == w[0]
  {
    JoinedFirstWord(v);
    JoinedFirstWord(w);
    assert |v[0]| == |w[0]|;
  }

  lemma {:induction false} WordsOfTrimEnd(s: string)
    ensures Words(TrimEnd(s)) == Words(s)
    decreases |s|
  {
    if s != "" && IsSpace(s[|s| - 1]) {
      WordsOfTrimEnd(s[..|s| - 1]);
      WordsDropLastSpace(s);
    }
  }

  lemma {:induction false} WordsDropLastSpace(s: string)
    requires s != "" && IsSpace(s[|s| - 1])
    ensures Words(s[..|s| - 1]) == Words(s)
    decreases |s|
  {
    if |s| > 1 {
      WordsDropLastSpace(s[1..]);
      assert s[..|s| - 1][1..] == s[1..][..|s[1..]| - 1];
    }
  }

  /** Before case is folded, two names are the same exactly when they have the same words. */
  lemma SameNameExactly(x: string, y: string)
    ensures Collapse(Trim(x)) == Collapse(Trim(y)) <==> Words(x) == Words(y)
  {
    NameIsItsWords(x);
    NameIsItsWords(y);
    if Joined(Words(x)) == Joined(Words(y)) {
      JoinedDetermines(Words(x), Words(y));
    }
  }

  lemma NameIsItsWords(x: string)
    ensures Collapse(Trim(x)) == Joined(Words(x)) && AreWords(Words(x))
  {
    WordsAreWords(x);
    WordsSkipSpace(x);
    WordsOfTrimEnd(TrimStart(x));
    TrimIsClean(x);
    CollapseJoins(Trim(x));
  }

  /** The name a customer is grouped by is its words, joined by single blanks, with the case folded. */
  lemma NormalizedName(lower: string -> string, name: string)
    ensures Normalize(lower, name) == lower(Joined(Words(name)))
  {
    NameIsItsWords(name);
  }
}
