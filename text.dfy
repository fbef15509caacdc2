/**
 * The string operations the post filters rely on: lower-casing, substring
 * containment, and the token count of Java's `split("\\s+")`.
 */
module Text {

  import opened Wrappers

  /** The characters of Java's regex class `\s`: space, tab, newline, vertical tab, form feed, carriage return. */
  predicate IsWhitespace(c: char)
  {
    c == ' ' || c == '\t' || c == '\n' || c == '\r' || c as int == 0x0B || c as int == 0x0C
  }

  /** Per-character lower-casing; only the ASCII letters are folded. */
  function ToLowerChar(c: char): char
  {
    if 'A' <= c <= 'Z' then (c as int + 32) as char else c
  }

  function ToLower(s: string): (r: string)
    ensures |r| == |s|
    ensures forall i :: 0 <= i < |s| ==> r[i] == ToLowerChar(s[i])
  {
    seq(|s|, i requires 0 <= i < |s| => ToLowerChar(s[i]))
  }

  predicate IsPrefix(pre: string, s: string)
  {
    |pre| <= |s| && pre == s[..|pre|]
  }

  /** `s.contains(sub)`: some suffix of `s` starts with `sub`. */
  predicate Contains(s: string, sub: string)
    decreases |s|
  {
    IsPrefix(sub, s) || (|s| > 0 && Contains(s[1..], sub))
  }

  /** `sub` occurs in `s` starting at index `i`. */
  predicate OccursAt(s: string, sub: string, i: int)
  {
    0 <= i && i + |sub| <= |s| && s[i..i + |sub|] == sub
  }

  /** An occurrence in the tail of `s` is an occurrence in `s` one index later, and back. */
  lemma OccursInTail(s: string, sub: string, i: int)
    requires |s| > 0 && 0 <= i
    ensures OccursAt(s[1..], sub, i) <==> OccursAt(s, sub, i + 1)
  {
    if 0 <= i && i + |sub| <= |s[1..]| {
      assert s[1..][i..i + |sub|] == s[i + 1..i + 1 + |sub|];
    }
  }

  /** Contains agrees with the occurrence-at-an-index reading of `String.contains`. */
  lemma {:induction false} ContainsIff(s: string, sub: string)
    ensures Contains(s, sub) <==> exists i :: OccursAt(s, sub, i)
    decreases |s|
  {
    if IsPrefix(sub, s) {
      assert OccursAt(s, sub, 0);
    } else if |s| == 0 {
      assert sub != [];
    } else {
      ContainsIff(s[1..], sub);
      forall i | 0 <= i ensures OccursAt(s[1..], sub, i) <==> OccursAt(s, sub, i + 1) {
        OccursInTail(s, sub, i);
      }
      if Contains(s[1..], sub) {
        var i :| OccursAt(s[1..], sub, i);
        assert OccursAt(s, sub, i + 1);
      } else {
        assert !OccursAt(s, sub, 0);
        forall i ensures !OccursAt(s, sub, i) {
          if i > 0 {
            assert !OccursAt(s[1..], sub, i - 1);
          }
        }
      }
    }
  }

  /** Every string contains the empty keyword and itself. */
  lemma ContainsEmptyAndSelf(s: string)
    ensures Contains(s, "") && Contains(s, s)
  {
    assert IsPrefix("", s);
    assert IsPrefix(s, s);
  }

  /** `content.toLowerCase().contains(keyword.toLowerCase())` */
  predicate ContainsIgnoreCase(content: string, keyword: string)
  {
    Contains(ToLower(content), ToLower(keyword))
  }

  /** Lower-casing twice changes nothing more. */
  lemma ToLowerIdempotent(s: string)
    ensures ToLower(ToLower(s)) == ToLower(s)
  {
    assert forall i :: 0 <= i < |s| ==> ToLower(ToLower(s))[i] == ToLower(s)[i];
  }

  /** The case of either argument is irrelevant: lower-casing it first gives the same answer. */
  lemma ContainsIgnoreCaseIgnoresCase(content: string, keyword: string)
    ensures ContainsIgnoreCase(ToLower(content), keyword) == ContainsIgnoreCase(content, keyword)
    ensures ContainsIgnoreCase(content, ToLower(keyword)) == ContainsIgnoreCase(content, keyword)
  {
    ToLowerIdempotent(content);
    ToLowerIdempotent(keyword);
  }

  /** A keyword is applied only when it is non-null and non-empty. */
  predicate KeywordGiven(keyword: Option<string>)
  {
    keyword.Some? && keyword.value != ""
  }

  // ---------------------------------------------------------------------------
  // Java's `s.split("\\s+")`, with the default limit 0.

  /** Index of the first whitespace character of `s`, or |s| when there is none. */
  function FirstWhitespace(s: string): (r: nat)
    ensures r <= |s|
    ensures r < |s| ==> IsWhitespace(s[r])
  {
    if s == [] || IsWhitespace(s[0]) then 0 else 1 + FirstWhitespace(s[1..])
  }

  lemma {:induction false} FirstWhitespaceIsFirst(s: string)
    ensures forall j :: 0 <= j < FirstWhitespace(s) ==> !IsWhitespace(s[j])
  {
    if s != [] && !IsWhitespace(s[0]) {
      FirstWhitespaceIsFirst(s[1..]);
      assert forall j :: 1 <= j < FirstWhitespace(s) ==> s[j] == s[1..][j - 1];
    }
  }

  /** Length of the run of whitespace that starts `s`. */
  function WhitespaceRun(s: string): (r: nat)
    ensures r <= |s|
    ensures r < |s| ==> !IsWhitespace(s[r])
    ensures r > 0 ==> IsWhitespace(s[r - 1])
  {
    if s == [] || !IsWhitespace(s[0]) then 0 else 1 + WhitespaceRun(s[1..])
  }

  lemma {:induction false} WhitespaceRunIsWhitespace(s: string)
    ensures forall j :: 0 <= j < WhitespaceRun(s) ==> IsWhitespace(s[j])
  {
    if s != [] && IsWhitespace(s[0]) {
      WhitespaceRunIsWhitespace(s[1..]);
      assert forall j :: 1 <= j < WhitespaceRun(s) ==> s[j] == s[1..][j - 1];
    }
  }

  /** The text between consecutive maximal whitespace runs, each run acting as one separator. */
  function Pieces(s: string): seq<string>
    decreases |s|
  {
    var i := FirstWhitespace(s);
    if i == |s| then [s]
    else
      var j := i + WhitespaceRun(s[i..]);
      [s[..i]] + Pieces(s[j..])
  }

  function DropTrailingEmpty(xs: seq<string>): seq<string>
  {
    if |xs| > 0 && xs[|xs| - 1] == "" then DropTrailingEmpty(xs[..|xs| - 1]) else xs
  }

  /**
   * `Pattern.split` with limit 0: when the separator never matches the input
   * itself is the only element; otherwise the pieces, minus trailing empty ones.
   */
  function SplitOnWhitespace(s: string): seq<string>
  {
    if FirstWhitespace(s) == |s| then [s] else DropTrailingEmpty(Pieces(s))
  }

  /** `s.split("\\s+").length` */
  function WordCount(s: string): nat
  {
    |SplitOnWhitespace(s)|
  }

  /** The maximal runs of non-whitespace characters of `s`, in order: its words. */
  function Words(s: string): seq<string>
    decreases |s|
  {
    if s == [] then []
    else if IsWhitespace(s[0]) then Words(s[1..])
    else
      var i := FirstWhitespace(s);
      [s[..i]] + Words(s[i..])
  }

  /** Every word is non-empty and free of whitespace. */
  lemma {:induction false} WordsAreWords(s: string)
    ensures forall k :: 0 <= k < |Words(s)| ==> Words(s)[k] != ""
    ensures forall k, c :: 0 <= k < |Words(s)| && c in Words(s)[k] ==> !IsWhitespace(c)
    decreases |s|
  {
    if s == [] {
    } else if IsWhitespace(s[0]) {
      WordsAreWords(s[1..]);
    } else {
      var i := FirstWhitespace(s);
      WordsAreWords(s[i..]);
      FirstWhitespaceIsFirst(s);
      assert Words(s) == [s[..i]] + Words(s[i..]);
      forall c | c in s[..i] ensures !IsWhitespace(c) {
        var j :| 0 <= j < i && s[..i][j] == c;
      }
    }
  }

  /** Leading whitespace does not change the words. */
  lemma {:induction false} WordsSkipWhitespace(s: string, k: nat)
    requires k <= |s|
    requires forall j :: 0 <= j < k ==> IsWhitespace(s[j])
    ensures Words(s) == Words(s[k..])
    decreases k
  {
    if k > 0 {
      assert Words(s) == Words(s[1..]);
      assert s[1..][k - 1..] == s[k..];
      WordsSkipWhitespace(s[1..], k - 1);
    }
  }

  predicate EndsInWhitespace(s: string)
  {
    s == [] || IsWhitespace(s[|s| - 1])
  }

  /**
   * For text that does not start with whitespace, the pieces are the words,
   * followed by one empty piece when the text ends in whitespace (or is empty).
   */
  lemma {:induction false} PiecesAreWords(s: string)
    requires s == [] || !IsWhitespace(s[0])
    ensures Pieces(s) == Words(s) + (if EndsInWhitespace(s) then [""] else [])
    decreases |s|
  {
    if s != [] {
      var i := FirstWhitespace(s);
      if i < |s| {
        var j := i + WhitespaceRun(s[i..]);
        var r := s[j..];
        PiecesAfterFirstWord(s, i, j);
        PiecesAreWords(r);
        EndsInWhitespaceSuffix(s, j);
        WordsAfterFirstWord(s, i, j);
        ConcatAssoc([s[..i]], Words(r), if EndsInWhitespace(s) then [""] else []);
      } else {
        WordsOfOneWord(s);
      }
    }
  }

  lemma PiecesAfterFirstWord(s: string, i: nat, j: nat)
    requires i == FirstWhitespace(s) < |s|
    requires j == i + WhitespaceRun(s[i..])
    ensures j <= |s| && Pieces(s) == [s[..i]] + Pieces(s[j..])
  {
    assert j <= |s|;
    assert s != [];
  }

  lemma ConcatAssoc(a: seq<string>, b: seq<string>, c: seq<string>)
    ensures a + (b + c) == (a + b) + c
  {
  }

  /** Text with no whitespace and a non-empty first character is a single word. */
  lemma WordsOfOneWord(s: string)
    requires s != [] && FirstWhitespace(s) == |s|
    ensures Words(s) == [s] && !EndsInWhitespace(s)
  {
    assert s[..|s|] == s && s[|s|..] == [];
  }

  /** After the first word and the whitespace run that follows it, the words continue. */
  lemma WordsAfterFirstWord(s: string, i: nat, j: nat)
    requires s != [] && !IsWhitespace(s[0])
    requires i == FirstWhitespace(s) < |s|
    requires j == i + WhitespaceRun(s[i..])
    ensures j <= |s| && Words(s) == [s[..i]] + Words(s[j..])
  {
    assert Words(s) == [s[..i]] + Words(s[i..]);
    assert s[i..][j - i..] == s[j..];
    WhitespaceRunIsWhitespace(s[i..]);
    WordsSkipWhitespace(s[i..], j - i);
  }

  lemma EndsInWhitespaceSuffix(s: string, j: nat)
    requires 0 < j <= |s| && IsWhitespace(s[j - 1])
    ensures EndsInWhitespace(s[j..]) == EndsInWhitespace(s)
  {
  }

  lemma DropTrailingEmptyKeeps(xs: seq<string>, tail: seq<string>)
    requires |xs| > 0 && xs[|xs| - 1] != ""
    requires tail == [] || tail == [""]
    ensures DropTrailingEmpty(xs + tail) == xs
  {
    if tail == [""] {
      assert (xs + tail)[..|xs + tail| - 1] == xs;
    }
  }

  /** Text that starts with a word splits into exactly its words. */
  lemma SplitStartingWithWord(s: string)
    requires s != "" && !IsWhitespace(s[0])
    ensures SplitOnWhitespace(s) == Words(s)
  {
    var i := FirstWhitespace(s);
    assert Words(s) == [s[..i]] + Words(s[i..]);
    if i == |s| {
      WordsOfOneWord(s);
    } else {
      PiecesAreWords(s);
      WordsAreWords(s);
      DropTrailingEmptyKeeps(Words(s), if EndsInWhitespace(s) then [""] else []);
    }
  }

  /** Leading whitespace becomes one empty piece; the words are those after it. */
  lemma PiecesOfLeadingWhitespace(s: string)
    requires s != "" && IsWhitespace(s[0])
    ensures WhitespaceRun(s) <= |s|
    ensures SplitOnWhitespace(s) == DropTrailingEmpty([""] + Pieces(s[WhitespaceRun(s)..]))
    ensures Words(s) == Words(s[WhitespaceRun(s)..])
    ensures s[WhitespaceRun(s)..] == [] || !IsWhitespace(s[WhitespaceRun(s)..][0])
  {
    assert FirstWhitespace(s) == 0;
    assert s[0..] == s && s[..0] == "";
    WhitespaceRunIsWhitespace(s);
    WordsSkipWhitespace(s, WhitespaceRun(s));
  }

  lemma DropTwoEmpty()
    ensures DropTrailingEmpty(["", ""]) == []
  {
    assert ["", ""][..1] == [""];
    assert DropTrailingEmpty([""]) == DropTrailingEmpty([]);
  }

  /** Text with a first word has at least one word. */
  lemma WordsOfWordStart(r: string)
    requires r != [] && !IsWhitespace(r[0])
    ensures Words(r) != [] && Words(r)[0] != ""
  {
    assert Words(r) == [r[..FirstWhitespace(r)]] + Words(r[FirstWhitespace(r)..]);
    WordsAreWords(r);
  }

  /** Text that starts with whitespace gains one leading empty token, unless it has no words at all. */
  lemma SplitStartingWithWhitespace(s: string)
    requires s != "" && IsWhitespace(s[0])
    ensures SplitOnWhitespace(s) == if Words(s) == [] then [] else [""] + Words(s)
  {
    PiecesOfLeadingWhitespace(s);
    var r := s[WhitespaceRun(s)..];
    PiecesAreWords(r);
    var tail := if EndsInWhitespace(r) then [""] else [];
    if r == [] {
      assert [""] + Pieces(r) == ["", ""];
      DropTwoEmpty();
    } else {
      WordsOfWordStart(r);
      WordsAreWords(r);
      ConcatAssoc([""], Words(r), tail);
      DropTrailingEmptyKeeps([""] + Words(r), tail);
    }
  }

  /**
   * The outcome of `split("\\s+")` in words: the empty string yields one empty
   * token; text without words (only whitespace) yields none; otherwise the words,
   * preceded by one empty token when the text starts with whitespace.
   */
  lemma SplitOnWhitespaceIsWords(s: string)
    ensures SplitOnWhitespace(s) ==
      if s == "" then [""]
      else if Words(s) == [] then []
      else if IsWhitespace(s[0]) then [""] + Words(s)
      else Words(s)
  {
    if s != "" {
      if IsWhitespace(s[0]) {
        SplitStartingWithWhitespace(s);
      } else {
        SplitStartingWithWord(s);
      }
    }
  }

  /** For text that starts with a word, `split("\\s+").length` is the number of words. */
  lemma WordCountIsWordsWithoutLeadingWhitespace(s: string)
    requires s != "" && !IsWhitespace(s[0])
    ensures WordCount(s) == |Words(s)|
  {
    SplitOnWhitespaceIsWords(s);
  }

  /** A non-empty run of non-whitespace characters. */
  predicate IsWord(w: string)
  {
    w != "" && forall c :: c in w ==> !IsWhitespace(c)
  }

  /** `String.join(" ", ws)` */
  function JoinWithSpaces(ws: seq<string>): string
  {
    if |ws| == 0 then "" else if |ws| == 1 then ws[0] else ws[0] + " " + JoinWithSpaces(ws[1..])
  }

  lemma {:induction false} FirstWhitespaceOfWord(w: string, rest: string)
    requires forall c :: c in w ==> !IsWhitespace(c)
    requires rest == "" || IsWhitespace(rest[0])
    ensures FirstWhitespace(w + rest) == |w|
    decreases |w|
  {
    if w != "" {
      assert (w + rest)[1..] == w[1..] + rest;
      assert w[0] in w;
      FirstWhitespaceOfWord(w[1..], rest);
    }
  }

  /** A word followed by whitespace or by nothing is the first of the words. */
  lemma WordsOfWordThen(w: string, rest: string)
    requires IsWord(w)
    requires rest == "" || IsWhitespace(rest[0])
    ensures Words(w + rest) == [w] + Words(rest)
  {
    FirstWhitespaceOfWord(w, rest);
    assert w[0] in w;
    assert (w + rest)[..|w|] == w && (w + rest)[|w|..] == rest;
  }

  /** Words joined by single spaces split back into the same words. */
  lemma {:induction false} WordsOfJoin(ws: seq<string>)
    requires forall k :: 0 <= k < |ws| ==> IsWord(ws[k])
    ensures Words(JoinWithSpaces(ws)) == ws
  {
    if |ws| == 1 {
      WordsOfWordThen(ws[0], "");
      assert ws[0] + "" == ws[0];
    } else if |ws| > 1 {
      var rest := JoinWithSpaces(ws[1..]);
      WordsOfJoin(ws[1..]);
      assert ws[0] + " " + rest == ws[0] + ([' '] + rest);
      WordsOfWordThen(ws[0], [' '] + rest);
      assert ([' '] + rest)[1..] == rest;
    }
  }

  /** Joined by single spaces, n words give `split("\\s+").length == n`. */
  lemma WordCountOfJoin(ws: seq<string>)
    requires |ws| > 0
    requires forall k :: 0 <= k < |ws| ==> IsWord(ws[k])
    ensures WordCount(JoinWithSpaces(ws)) == |ws|
  {
    var s := JoinWithSpaces(ws);
    assert s[0] == ws[0][0] by {
      if |ws| > 1 {
        assert s == ws[0] + (" " + JoinWithSpaces(ws[1..]));
      }
    }
    assert ws[0][0] in ws[0];
    WordsOfJoin(ws);
    SplitStartingWithWord(s);
  }

  /** Text made only of whitespace has no words, so it splits into no tokens at all. */
  lemma WordCountOfBlank(s: string)
    requires s != ""
    requires forall j :: 0 <= j < |s| ==> IsWhitespace(s[j])
    ensures WordCount(s) == 0
  {
    WordsSkipWhitespace(s, |s|);
    assert s[|s|..] == [];
    SplitStartingWithWhitespace(s);
  }

  /** One word after one leading whitespace character splits into an empty token and the word. */
  lemma WordCountOfIndentedWord(c: char, w: string)
    requires IsWhitespace(c) && IsWord(w)
    ensures WordCount([c] + w) == 2
  {
    WordsOfWordThen(w, "");
    assert w + "" == w;
    WordsSkipWhitespace([c] + w, 1);
    assert ([c] + w)[1..] == w;
    SplitStartingWithWhitespace([c] + w);
  }

  /** The three boundary cases of Java's split: "" has one token, blank text none, a leading blank one extra. */
  lemma WordCountQuirks()
    ensures WordCount("") == 1
    ensures WordCount("   ") == 0
    ensures WordCount(" hello") == 2
  {
    assert FirstWhitespace("") == 0;
    WordCountOfBlank("   ");
    var w := "hello";
    assert IsWord(w);
    assert " hello" == [' '] + w;
    WordCountOfIndentedWord(' ', w);
  }

  lemma WordCountExample()
    ensures WordCount("hello world foo") == 3
  {
    var ws := ["hello", "world", "foo"];
    assert JoinWithSpaces(ws) == "hello world foo";
    WordCountOfJoin(ws);
  }
}
