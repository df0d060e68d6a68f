/**
  Splitting of the test helper's argument string into tokens, as done with
  boost::split, the is_space classifier and token compression switched on:
  every maximal run of white space separates two tokens (SplitRun), so tokens
  between two runs are never empty, but a leading (trailing) run still yields
  an empty first (last) token (SplitLeadingRun, SplitRun with nothing after
  the run), and the empty string yields the single empty token.

  The functions carry no postconditions so that they unfold cheaply on
  literal arguments; their properties are the lemmas below.
*/
module Tokenize {

  /** The characters the classic locale counts as white space: the blank, and
      tab, line feed, vertical tab, form feed and carriage return (codes 9 to 13). */
  predicate IsSpace(c: char) {
    c == ' ' || '\t' <= c <= '\r'
  }

  /** s holds no white space. */
  predicate NoSpace(s: string) {
    forall i :: 0 <= i < |s| ==> !IsSpace(s[i])
  }

  /** The longest prefix of s that holds no white space. */
  function Word(s: string): string {
    if s == [] || IsSpace(s[0]) then [] else [s[0]] + Word(s[1..])
  }

  /** s without its leading run of white space. */
  function SkipSpaces(s: string): string {
    if s != [] && IsSpace(s[0]) then SkipSpaces(s[1..]) else s
  }

  /** The tokens of s, with runs of white space compressed into one separator. */
  function Split(s: string): seq<string>
    decreases |s|
  {
    var w := Word(s);
    if |w| >= |s| then [s]
    else
      SplitShrinks(s);
      [w] + Split(SkipSpaces(s[|w|..]))
  }

  /** Split recurses on a shorter text. */
  lemma SplitShrinks(s: string)
    requires |Word(s)| < |s|
    ensures |SkipSpaces(s[|Word(s)|..])| < |s|
  {
  }

  /** The tokens ts written one after another, separated by single blanks. */
  function Join(ts: seq<string>): string
    requires |ts| >= 1
  {
    if |ts| == 1 then ts[0] else ts[0] + " " + Join(ts[1..])
  }

  /** Word takes the longest white-space-free prefix: what follows it, if
      anything, is white space. */
  lemma {:induction false} WordIsLongestPrefix(s: string)
    ensures Word(s) <= s
    ensures NoSpace(Word(s))
    ensures |Word(s)| < |s| ==> IsSpace(s[|Word(s)|])
    decreases |s|
  {
    if s != [] && !IsSpace(s[0]) {
      WordIsLongestPrefix(s[1..]);
    }
  }

  /** SkipSpaces drops a run of white space and stops at the first other
      character. */
  lemma {:induction false} SkipSpacesDropsRun(s: string)
    ensures |SkipSpaces(s)| <= |s| && SkipSpaces(s) == s[|s| - |SkipSpaces(s)|..]
    ensures forall i :: 0 <= i < |s| - |SkipSpaces(s)| ==> IsSpace(s[i])
    ensures SkipSpaces(s) == [] || !IsSpace(SkipSpaces(s)[0])
    decreases |s|
  {
    if s != [] && IsSpace(s[0]) {
      SkipSpacesDropsRun(s[1..]);
    }
  }

  /** What Split can produce: at least one token, none holding white space,
      and only the first and the last possibly empty. */
  predicate Splittable(ts: seq<string>) {
    && |ts| >= 1
    && (forall i :: 0 <= i < |ts| ==> NoSpace(ts[i]))
    && (forall i :: 0 < i < |ts| - 1 ==> ts[i] != [])
  }

  /** Every result of Split is Splittable, and a text that starts with a
      character other than white space starts with a non-empty token. */
  lemma {:induction false} SplitShape(s: string)
    ensures Splittable(Split(s))
    ensures s != [] && !IsSpace(s[0]) ==> Split(s)[0] != []
    decreases |s|
  {
    var w := Word(s);
    WordIsLongestPrefix(s);
    if |w| < |s| {
      var rest := SkipSpaces(s[|w|..]);
      SkipSpacesDropsRun(s[|w|..]);
      SplitShape(rest);
      var r := Split(s);
      assert r == [w] + Split(rest);
      forall i | 0 < i < |r| - 1 ensures r[i] != [] {
        assert r[i] == Split(rest)[i - 1];
      }
      forall i | 0 <= i < |r| ensures NoSpace(r[i]) {
        if i > 0 {
          assert r[i] == Split(rest)[i - 1];
        }
      }
    } else {
      assert w == s;
    }
  }

  /** A non-empty run of white space: the separator between two tokens. */
  predicate SpaceRun(sep: string) {
    sep != [] && forall i :: 0 <= i < |sep| ==> IsSpace(sep[i])
  }

  /** White space after a word ends the word. */
  lemma {:induction false} WordBeforeSpace(t: string, r: string)
    requires NoSpace(t)
    requires r != [] && IsSpace(r[0])
    ensures Word(t + r) == t
    decreases |t|
  {
    if t == [] {
      assert t + r == r;
    } else {
      assert (t + r)[0] == t[0];
      assert (t + r)[1..] == t[1..] + r;
      WordBeforeSpace(t[1..], r);
    }
  }

  /** Skipping separators drops a whole run of white space and nothing of the
      text after it. */
  lemma {:induction false} SkipRun(sep: string, j: string)
    requires SpaceRun(sep)
    requires j == [] || !IsSpace(j[0])
    ensures SkipSpaces(sep + j) == j
    decreases |sep|
  {
    assert (sep + j)[0] == sep[0];
    assert (sep + j)[1..] == sep[1..] + j;
    if |sep| > 1 {
      SkipRun(sep[1..], j);
    } else {
      assert sep[1..] + j == j;
    }
  }

  /** A word, any run of white space, and a text that does not start with
      white space split into the word followed by the tokens of that text: a
      run of several separators counts as one, and no character of the word
      or the text is lost. With j empty, a trailing run yields a last empty
      token. */
  lemma SplitRun(t: string, sep: string, j: string)
    requires NoSpace(t)
    requires SpaceRun(sep)
    requires j == [] || !IsSpace(j[0])
    ensures Split(t + sep + j) == [t] + Split(j)
  {
    var s := t + sep + j;
    assert s == t + (sep + j);
    WordBeforeSpace(t, sep + j);
    assert s[|t|..] == sep + j;
    SkipRun(sep, j);
  }

  /** A leading run of white space yields an empty first token. */
  lemma SplitLeadingRun(sep: string, j: string)
    requires SpaceRun(sep)
    requires j == [] || !IsSpace(j[0])
    ensures Split(sep + j) == [""] + Split(j)
  {
    assert "" + sep + j == sep + j;
    SplitRun("", sep, j);
  }

  /** A word, one blank and a text that does not start with white space split
      into the word followed by the tokens of that text. */
  lemma SplitStep(t: string, j: string)
    requires NoSpace(t)
    requires j == [] || !IsSpace(j[0])
    ensures Split(t + " " + j) == [t] + Split(j)
  {
    SplitRun(t, " ", j);
  }

  /** Splitting the blank-separated text of tokens Split could produce gives
      those tokens back. */
  lemma {:induction false} SplitJoin(ts: seq<string>)
    requires Splittable(ts)
    ensures Split(Join(ts)) == ts
    decreases |ts|
  {
    var t := ts[0];
    if |ts| == 1 {
      SplitWord(t);
    } else {
      var rest := ts[1..];
      var j := Join(rest);
      assert Join(ts) == t + " " + j;
      if |rest| >= 2 {
        assert rest[0] == ts[1];
        assert j == rest[0] + " " + Join(rest[1..]);
        assert j[0] == rest[0][0];
      }
      SplitStep(t, j);
      assert Splittable(rest) by {
        forall i | 0 < i < |rest| - 1 ensures rest[i] != [] {
          assert rest[i] == ts[i + 1];
        }
      }
      SplitJoin(rest);
    }
  }

  /** The tokens ts written one after another, the i-th gap filled with the
      white-space run seps[i]. */
  function JoinRuns(ts: seq<string>, seps: seq<string>): string
    requires |ts| >= 1 && |seps| == |ts| - 1
  {
    if |ts| == 1 then ts[0] else ts[0] + seps[0] + JoinRuns(ts[1..], seps[1..])
  }

  /** Whatever runs of white space separate them, the tokens Split could
      produce come back from the text: separator runs are compressed and
      nothing else is dropped. */
  lemma {:induction false} SplitJoinRuns(ts: seq<string>, seps: seq<string>)
    requires Splittable(ts)
    requires |seps| == |ts| - 1
    requires forall i :: 0 <= i < |seps| ==> SpaceRun(seps[i])
    ensures Split(JoinRuns(ts, seps)) == ts
    decreases |ts|
  {
    var t := ts[0];
    if |ts| == 1 {
      SplitWord(t);
    } else {
      var rest := ts[1..];
      var j := JoinRuns(rest, seps[1..]);
      assert JoinRuns(ts, seps) == t + seps[0] + j;
      if |rest| >= 2 {
        assert rest[0] == ts[1];
        assert j == rest[0] + seps[1] + JoinRuns(rest[1..], seps[2..]);
        assert j[0] == rest[0][0];
      }
      SplitRun(t, seps[0], j);
      assert Splittable(rest) by {
        forall i | 0 < i < |rest| - 1 ensures rest[i] != [] {
          assert rest[i] == ts[i + 1];
        }
      }
      assert forall i :: 0 <= i < |seps[1..]| ==> seps[1..][i] == seps[i + 1];
      SplitJoinRuns(rest, seps[1..]);
    }
  }

  /** A text without white space is one token. */
  lemma SplitWord(s: string)
    requires NoSpace(s)
    ensures Split(s) == [s]
  {
    WordIsLongestPrefix(s);
    assert Word(s) == s;
  }
}
