/**
 * Text normalisation before the texts are sent to the entity recogniser
 * (`clean` in src/twitIE_amica.py): punctuation other than `. , @ ! ? # ' "`
 * becomes a space, the text is stripped, non-ASCII characters are dropped and
 * runs of whitespace collapse to one space.
 */
module TwitieClean {
  import opened PyStr

  /** Python's `string.punctuation`. */
  const Punctuation: set<char> := {
    '!', '"', '#', '$', '%', '&', '\'', '(', ')', '*', '+', ',', '-', '.', '/', ':',
    ';', '<', '=', '>', '?', '@', '[', '\\', ']', '^', '_', '`', '{', '|', '}', '~'
  }

  /** The punctuation the cleaner keeps. */
  const KeptPunctuation: set<char> := {'.', ',', '@', '!', '?', '#', '\'', '"'}

  /** The character class of the substitution pattern. */
  const RemovedPunctuation: set<char> := Punctuation - KeptPunctuation

  predicate IsAscii(c: char)
  {
    c as int < 128
  }

  /** What may appear in a cleaned text. */
  predicate CleanChar(c: char)
  {
    IsAscii(c) && c !in RemovedPunctuation
  }

  /** `pattern.sub(" ", text)`: each removed punctuation character becomes a space. */
  function BlankPunctuation(t: string): string
  {
    if t == [] then ""
    else [if t[0] in RemovedPunctuation then ' ' else t[0]] + BlankPunctuation(t[1..])
  }

  /** `t.encode("ascii", errors="ignore").decode()`: non-ASCII characters are dropped. */
  function AsciiOnly(t: string): string
  {
    if t == [] then ""
    else (if IsAscii(t[0]) then [t[0]] else "") + AsciiOnly(t[1..])
  }

  /** `[tk for tk in tokens if tk != ' ']`. */
  function KeepTokens(tokens: seq<string>): seq<string>
  {
    if tokens == [] then []
    else (if tokens[0] != " " then [tokens[0]] else []) + KeepTokens(tokens[1..])
  }

  /** The cleaning of one text, step by step as the loop body does it. */
  function CleanText(text: string): string
  {
    var blanked := BlankPunctuation(text);
    var stripped := Strip(blanked);
    var ascii := AsciiOnly(stripped);
    Join(KeepTokens(Words(ascii)), " ")
  }

  /** One cleaned text per input text, in the same order. */
  method Clean(series: seq<string>) returns (captions: seq<string>)
    ensures |captions| == |series|
    ensures forall i :: 0 <= i < |series| ==> captions[i] == CleanText(series[i])
  {
    captions := [];
    for i := 0 to |series|
      invariant |captions| == i
      invariant forall j :: 0 <= j < i ==> captions[j] == CleanText(series[j])
    {
      var text := series[i];
      var cleaned := BlankPunctuation(text);
      cleaned := Strip(cleaned);
      cleaned := AsciiOnly(cleaned);
      var tokens := KeepTokens(Words(cleaned));
      captions := captions + [Join(tokens, " ")];
    }
  }

  // ---------------------------------------------------------------------
  // What a cleaned text looks like
  // ---------------------------------------------------------------------

  lemma {:induction false} BlankPunctuationChars(t: string)
    ensures |BlankPunctuation(t)| == |t|
    ensures forall k :: 0 <= k < |t| ==> BlankPunctuation(t)[k] !in RemovedPunctuation
    ensures forall k :: 0 <= k < |t| && t[k] in RemovedPunctuation ==> BlankPunctuation(t)[k] == ' '
    ensures forall k :: 0 <= k < |t| && t[k] !in RemovedPunctuation ==> BlankPunctuation(t)[k] == t[k]
  {
    if t != [] {
      BlankPunctuationChars(t[1..]);
      var r := BlankPunctuation(t);
      assert forall k :: 1 <= k < |t| ==> r[k] == BlankPunctuation(t[1..])[k - 1];
    }
  }

  lemma {:induction false} AsciiOnlyChars(t: string, P: char -> bool)
    requires AllChars(t, P)
    ensures AllChars(AsciiOnly(t), c => P(c) && IsAscii(c))
  {
    if t != [] {
      AsciiOnlyChars(t[1..], P);
      var head := if IsAscii(t[0]) then [t[0]] else "";
      var r := AsciiOnly(t);
      assert r == head + AsciiOnly(t[1..]);
      forall k | 0 <= k < |r| ensures P(r[k]) && IsAscii(r[k]) {
        if k >= |head| {
          assert r[k] == AsciiOnly(t[1..])[k - |head|];
        }
      }
    }
  }

  /** The ASCII filter works character by character. */
  lemma {:induction false} AsciiOnlyKeeps(a: string, b: string)
    ensures AsciiOnly(a + b) == AsciiOnly(a) + AsciiOnly(b)
    decreases |a|
  {
    if a == [] {
      assert a + b == b;
    } else {
      var head := if IsAscii(a[0]) then [a[0]] else "";
      assert (a + b)[0] == a[0] && (a + b)[1..] == a[1..] + b;
      assert AsciiOnly(a + b) == head + AsciiOnly(a[1..] + b);
      AsciiOnlyKeeps(a[1..], b);
    }
  }

  /** ASCII text passes through the ASCII filter unchanged. */
  lemma {:induction false} AsciiOnlyAscii(t: string)
    requires AllChars(t, IsAscii)
    ensures AsciiOnly(t) == t
  {
    if t != [] {
      AsciiOnlyAscii(t[1..]);
      assert [t[0]] + t[1..] == t;
    }
  }

  lemma {:induction false} KeepTokensOf(tokens: seq<string>)
    requires ValidWords(tokens)
    ensures KeepTokens(tokens) == tokens
  {
    if tokens != [] {
      assert NoSpace(tokens[0]) && tokens[0] != [];
      assert tokens[0] != " " by {
        assert !IsSpace(tokens[0][0]);
      }
      assert forall k :: 0 <= k < |tokens[1..]| ==> tokens[1..][k] == tokens[k + 1];
      KeepTokensOf(tokens[1..]);
      assert [tokens[0]] + tokens[1..] == tokens;
    }
  }

  /** The output is ASCII and holds none of the removed punctuation. */
  lemma CleanTextChars(text: string)
    ensures AllChars(CleanText(text), CleanChar)
  {
    var blanked := BlankPunctuation(text);
    BlankPunctuationChars(text);
    var notPunct := (c: char) => c !in RemovedPunctuation;
    assert AllChars(blanked, notPunct);
    StripChars(blanked, notPunct);
    var ascii := AsciiOnly(Strip(blanked));
    AsciiOnlyChars(Strip(blanked), notPunct);
    assert AllChars(ascii, CleanChar);
    WordsChars(ascii, CleanChar);
    WordsShape(ascii);
    KeepTokensOf(Words(ascii));
    assert AllChars(" ", CleanChar);
    JoinChars(Words(ascii), " ", CleanChar);
  }

  /**
   * A text in normal form: no whitespace at either end, no whitespace other
   * than the plain space, and never two spaces in a row.
   */
  predicate SingleSpaced(r: string)
  {
    && (r != [] ==> !IsSpace(r[0]) && !IsSpace(r[|r| - 1]))
    && (forall k :: 0 <= k < |r| && IsSpace(r[k]) ==> r[k] == ' ')
    && (forall k :: 0 <= k < |r| - 1 && r[k] == ' ' ==> r[k + 1] != ' ')
  }

  lemma {:induction false} JoinWordsSingleSpaced(ws: seq<string>)
    requires ValidWords(ws)
    ensures SingleSpaced(Join(ws, " "))
    ensures ws != [] ==> Join(ws, " ") != []
    decreases |ws|
  {
    if |ws| > 1 {
      assert forall k :: 0 <= k < |ws[1..]| ==> ws[1..][k] == ws[k + 1];
      JoinWordsSingleSpaced(ws[1..]);
      var w, j := ws[0], Join(ws[1..], " ");
      var r := Join(ws, " ");
      assert r == w + " " + j;
      assert NoSpace(w) && w != [] && j != [];
      assert r[0] == w[0];
      assert r[|r| - 1] == j[|j| - 1];
      forall k | 0 <= k < |r| && IsSpace(r[k]) ensures r[k] == ' ' {
        if k > |w| {
          assert r[k] == j[k - |w| - 1];
        }
      }
      forall k | 0 <= k < |r| - 1 && r[k] == ' ' ensures r[k + 1] != ' ' {
        if k == |w| {
          assert r[k + 1] == j[0];
        } else if k > |w| {
          assert r[k] == j[k - |w| - 1] && r[k + 1] == j[k - |w|];
        }
      }
    }
  }

  /** The output has no leading or trailing whitespace and its tokens are separated by exactly one space. */
  lemma CleanTextSingleSpaced(text: string)
    ensures SingleSpaced(CleanText(text))
  {
    var ascii := AsciiOnly(Strip(BlankPunctuation(text)));
    WordsShape(ascii);
    KeepTokensOf(Words(ascii));
    JoinWordsSingleSpaced(Words(ascii));
  }

  /** A single-spaced suffix that starts at a non-space character is single-spaced. */
  lemma SingleSpacedSuffix(r: string, i: nat)
    requires SingleSpaced(r) && i < |r| && !IsSpace(r[i])
    ensures SingleSpaced(r[i..])
  {
    var s := r[i..];
    assert forall k :: 0 <= k < |s| ==> s[k] == r[i + k];
  }

  /**
   * The words of a single-spaced text, read after the word `cur` already
   * begun, join back into `cur` followed by the text.
   */
  lemma {:induction false} WordsFromSingleSpaced(s: string, cur: string)
    requires cur != [] && NoSpace(cur) && SingleSpaced(cur + s)
    ensures WordsFrom(s, cur) != []
    ensures Join(WordsFrom(s, cur), " ") == cur + s
    decreases |s|
  {
    var r := cur + s;
    if s == [] {
      assert r == cur;
    } else if IsSpace(s[0]) {
      SingleSpacedAfterSpace(cur, s);
      assert [s[1]] + s[2..] == s[1..];
      WordsFromSingleSpaced(s[2..], [s[1]]);
      WordsFromSpace(s, cur);
      JoinCons(cur, WordsFrom(s[2..], [s[1]]), " ");
      assert cur + " " + s[1..] == r;
    } else {
      assert r[|cur|] == s[0];
      assert NoSpace(cur + [s[0]]);
      assert (cur + [s[0]]) + s[1..] == r;
      WordsFromSingleSpaced(s[1..], cur + [s[0]]);
    }
  }

  /** In a single-spaced text a space after a word is a single `' '` followed by the next word. */
  lemma SingleSpacedAfterSpace(cur: string, s: string)
    requires cur != [] && SingleSpaced(cur + s) && s != [] && IsSpace(s[0])
    ensures |s| >= 2 && s[0] == ' ' && !IsSpace(s[1]) && SingleSpaced([s[1]] + s[2..])
  {
    var r := cur + s;
    assert r[|cur|] == s[0];
    assert |cur| + 1 < |r| && r[|cur| + 1] == s[1];
    SingleSpacedSuffix(r, |cur| + 1);
    assert r[|cur| + 1..] == [s[1]] + s[2..];
  }

  /** A space ends the current word and a non-space starts the next one. */
  lemma WordsFromSpace(s: string, cur: string)
    requires cur != [] && |s| >= 2 && IsSpace(s[0]) && !IsSpace(s[1])
    ensures WordsFrom(s, cur) == [cur] + WordsFrom(s[2..], [s[1]])
  {
    assert s[1..][0] == s[1] && s[1..][1..] == s[2..] && "" + [s[1]] == [s[1]];
  }

  /** A single-spaced text is the space-join of its words. */
  lemma JoinWordsOfSingleSpaced(t: string)
    requires SingleSpaced(t)
    ensures Join(Words(t), " ") == t
  {
    if t != [] {
      assert [t[0]] + t[1..] == t && "" + [t[0]] == [t[0]];
      assert Words(t) == WordsFrom(t[1..], [t[0]]);
      WordsFromSingleSpaced(t[1..], [t[0]]);
    }
  }

  lemma {:induction false} BlankPunctuationClean(t: string)
    requires AllChars(t, CleanChar)
    ensures BlankPunctuation(t) == t
  {
    if t != [] {
      BlankPunctuationClean(t[1..]);
    }
  }

  /**
   * A text that is already in normal form, ASCII and free of the removed
   * punctuation, comes out of the cleaner unchanged.
   */
  lemma CleanTextFixpoint(t: string)
    requires AllChars(t, CleanChar) && SingleSpaced(t)
    ensures CleanText(t) == t
  {
    BlankPunctuationClean(t);
    assert Strip(t) == t;
    AsciiOnlyAscii(t);
    WordsShape(t);
    KeepTokensOf(Words(t));
    JoinWordsOfSingleSpaced(t);
  }

  /** Cleaning a cleaned text changes nothing. */
  lemma CleanTextIdempotent(text: string)
    ensures CleanText(CleanText(text)) == CleanText(text)
  {
    CleanTextChars(text);
    CleanTextSingleSpaced(text);
    CleanTextFixpoint(CleanText(text));
  }
}
