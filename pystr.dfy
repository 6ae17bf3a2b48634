/**
 * The Python `str` operations the two pipelines rely on, over `seq<char>`
 * (a Python string is a sequence of code points): slicing with clamped
 * bounds, the `in` test, `replace`, `split(sep)`, `split()`, `strip()`,
 * `join` and a decimal `int()`.
 */
module PyStr {
  import opened Wrappers

  // ---------------------------------------------------------------------
  // Slicing
  // ---------------------------------------------------------------------

  /** A slice bound as Python normalises it: negative counts from the end, then clamped to [0, n]. */
  function ClampIndex(i: int, n: nat): nat
  {
    if i < 0 then (if i + n < 0 then 0 else i + n)
    else if i > n then n
    else i
  }

  /** `s[i:j]`: never raises; out-of-range bounds are clamped and an inverted range is empty. */
  function Slice(s: string, i: int, j: int): string
  {
    var a, b := ClampIndex(i, |s|), ClampIndex(j, |s|);
    if a < b then s[a..b] else ""
  }

  /** A slice is always a contiguous piece of the string, and an in-range slice is the plain subsequence. */
  lemma SliceIsPiece(s: string, i: int, j: int)
    ensures exists a, b :: 0 <= a <= b <= |s| && Slice(s, i, j) == s[a..b]
    ensures 0 <= i <= j <= |s| ==> Slice(s, i, j) == s[i..j]
    ensures j <= i && (0 <= j || i < 0) ==> Slice(s, i, j) == ""
  {
    var a, b := ClampIndex(i, |s|), ClampIndex(j, |s|);
    if a < b {
      assert Slice(s, i, j) == s[a..b];
    } else {
      assert Slice(s, i, j) == s[0..0];
    }
  }

  // ---------------------------------------------------------------------
  // Substring tests
  // ---------------------------------------------------------------------

  predicate StartsWith(s: string, p: string)
  {
    |p| <= |s| && s[..|p|] == p
  }

  /** Python's `sub in s`; the empty string is in every string. */
  predicate Contains(s: string, sub: string)
    decreases |s|
  {
    StartsWith(s, sub) || (s != [] && Contains(s[1..], sub))
  }

  /** `sub` occurs in `s` starting at position `k`. */
  predicate OccursAt(s: string, sub: string, k: int)
  {
    0 <= k && k + |sub| <= |s| && s[k..k + |sub|] == sub
  }

  /** `Contains` agrees with the positional definition of a substring, in both directions. */
  lemma {:induction false} ContainsAt(s: string, sub: string)
    ensures Contains(s, sub) <==> exists k :: OccursAt(s, sub, k)
    decreases |s|
  {
    if StartsWith(s, sub) {
      assert OccursAt(s, sub, 0);
    }
    if s != [] {
      ContainsAt(s[1..], sub);
      if Contains(s[1..], sub) {
        var k :| OccursAt(s[1..], sub, k);
        assert s[k + 1..k + 1 + |sub|] == s[1..][k..k + |sub|];
        assert OccursAt(s, sub, k + 1);
      }
      if k :| OccursAt(s, sub, k) {
        if k > 0 {
          assert s[1..][k - 1..k - 1 + |sub|] == s[k..k + |sub|];
          assert OccursAt(s[1..], sub, k - 1);
        } else {
          assert StartsWith(s, sub);
        }
      }
    } else if k :| OccursAt(s, sub, k) {
      assert StartsWith(s, sub);
    }
  }

  /** A string made of characters outside `sub` does not contain a non-empty `sub`. */
  lemma {:induction false} NotContainsForeignChar(s: string, sub: string, c: char)
    requires c in sub
    requires c !in s
    ensures !Contains(s, sub)
    decreases |s|
  {
    if s != [] {
      NotContainsForeignChar(s[1..], sub, c);
    }
  }

  /** Every character of `s` satisfies `P`. */
  predicate AllChars(s: string, P: char -> bool)
  {
    forall k :: 0 <= k < |s| ==> P(s[k])
  }

  // ---------------------------------------------------------------------
  // join and split(sep)
  // ---------------------------------------------------------------------

  /** `sep.join(parts)`. */
  function Join(parts: seq<string>, sep: string): string
  {
    if |parts| == 0 then ""
    else if |parts| == 1 then parts[0]
    else parts[0] + sep + Join(parts[1..], sep)
  }

  lemma JoinCons(p: string, rest: seq<string>, sep: string)
    requires |rest| >= 1
    ensures Join([p] + rest, sep) == p + sep + Join(rest, sep)
  {
    assert ([p] + rest)[1..] == rest;
  }

  /** A joined string is made of the characters of its parts and of the separator. */
  lemma {:induction false} JoinChars(parts: seq<string>, sep: string, P: char -> bool)
    requires AllChars(sep, P)
    requires forall i :: 0 <= i < |parts| ==> AllChars(parts[i], P)
    ensures AllChars(Join(parts, sep), P)
    decreases |parts|
  {
    if |parts| > 1 {
      assert forall i :: 0 <= i < |parts[1..]| ==> parts[1..][i] == parts[i + 1];
      JoinChars(parts[1..], sep, P);
      var r, a, b := Join(parts, sep), parts[0] + sep, Join(parts[1..], sep);
      assert r == a + b;
      forall k | 0 <= k < |r| ensures P(r[k]) {
        if k < |parts[0]| {
          assert r[k] == parts[0][k];
        } else if k < |a| {
          assert r[k] == sep[k - |parts[0]|];
        } else {
          assert r[k] == b[k - |a|];
        }
      }
    }
  }

  /** `s.split(sep)` for a non-empty separator: the pieces between leftmost non-overlapping occurrences. */
  function Split(s: string, sep: string): seq<string>
    requires sep != []
  {
    SplitFrom(s, sep, "")
  }

  /** Split of `s` when the piece being built already holds `cur`. */
  function SplitFrom(s: string, sep: string, cur: string): seq<string>
    requires sep != []
    decreases |s|
  {
    if s == [] then [cur]
    else if StartsWith(s, sep) then [cur] + SplitFrom(s[|sep|..], sep, "")
    else SplitFrom(s[1..], sep, cur + [s[0]])
  }

  lemma {:induction false} SplitFromJoin(s: string, sep: string, cur: string)
    requires sep != []
    ensures |SplitFrom(s, sep, cur)| >= 1
    ensures Join(SplitFrom(s, sep, cur), sep) == cur + s
    decreases |s|
  {
    if s == [] {
    } else if StartsWith(s, sep) {
      var rest := s[|sep|..];
      SplitFromJoin(rest, sep, "");
      JoinCons(cur, SplitFrom(rest, sep, ""), sep);
      assert s == sep + rest;
    } else {
      SplitFromJoin(s[1..], sep, cur + [s[0]]);
      assert cur + [s[0]] + s[1..] == cur + s;
    }
  }

  /** Joining the pieces of a split with the same separator gives the string back; there is always a piece. */
  lemma SplitJoinRoundTrip(s: string, sep: string)
    requires sep != []
    ensures |Split(s, sep)| >= 1
    ensures Join(Split(s, sep), sep) == s
  {
    SplitFromJoin(s, sep, "");
  }

  lemma {:induction false} SplitFromAbsent(s: string, sep: string, cur: string)
    requires sep != []
    requires !Contains(s, sep)
    ensures SplitFrom(s, sep, cur) == [cur + s]
    decreases |s|
  {
    if s != [] {
      SplitFromAbsent(s[1..], sep, cur + [s[0]]);
      assert cur + [s[0]] + s[1..] == cur + s;
    } else {
      assert cur + s == cur;
    }
  }

  /** A string without the separator splits into itself alone. */
  lemma SplitAbsent(s: string, sep: string)
    requires sep != []
    requires !Contains(s, sep)
    ensures Split(s, sep) == [s]
  {
    SplitFromAbsent(s, sep, "");
    assert "" + s == s;
  }

  /**
   * The separator has a character, at position `m`, that occurs neither
   * before it in the separator nor in any of `parts`; a scan for the
   * separator then cannot start inside a part.
   */
  predicate Anchored(parts: seq<string>, sep: string, m: nat)
  {
    && m < |sep|
    && (forall k :: 0 <= k < m ==> sep[k] != sep[m])
    && (forall i :: 0 <= i < |parts| ==> sep[m] !in parts[i])
  }

  lemma {:induction false} SplitFromJoinRecovers(parts: seq<string>, sep: string, m: nat, cur: string)
    requires sep != [] && |parts| >= 1
    requires Anchored(parts, sep, m)
    requires sep[m] !in cur
    ensures SplitFrom(Join(parts, sep), sep, cur) == [cur + parts[0]] + parts[1..]
    decreases |parts|
  {
    assert sep[m] in sep;
    assert sep[m] !in parts[0];
    if |parts| == 1 {
      NotContainsForeignChar(parts[0], sep, sep[m]);
      SplitFromAbsent(parts[0], sep, cur);
    } else {
      JoinCons(parts[0], parts[1..], sep);
      assert [parts[0]] + parts[1..] == parts;
      var rest := Join(parts[1..], sep);
      assert forall i :: 0 <= i < |parts[1..]| ==> parts[1..][i] == parts[i + 1];
      SplitFromJoinRecovers(parts[1..], sep, m, "");
      SplitFromPastPiece(parts[0], sep, m, rest, cur);
      assert parts[1..][0] == parts[1];
      assert "" + parts[1] == parts[1];
      assert [parts[1]] + parts[1..][1..] == parts[1..];
    }
  }

  /** Scanning an anchored piece stops exactly at the separator after it. */
  lemma {:induction false} SplitFromPastPiece(p: string, sep: string, m: nat, rest: string, cur: string)
    requires sep != [] && Anchored([p], sep, m)
    ensures SplitFrom(p + sep + rest, sep, cur) == [cur + p] + SplitFrom(rest, sep, "")
    decreases |p|
  {
    var s := p + sep + rest;
    assert [p][0] == p;
    if p == [] {
      assert cur + p == cur;
      assert s == sep + rest;
      assert StartsWith(s, sep);
      assert s[|sep|..] == rest;
    } else {
      assert s[1..] == p[1..] + sep + rest;
      assert [p[1..]][0] == p[1..];
      SplitFromPastPiece(p[1..], sep, m, rest, cur + [p[0]]);
      assert cur + [p[0]] + p[1..] == cur + p;
    }
  }

  /** `Split` inverts `Join` when the separator is anchored against the parts. */
  lemma JoinSplitRoundTrip(parts: seq<string>, sep: string, m: nat)
    requires sep != [] && |parts| >= 1
    requires Anchored(parts, sep, m)
    ensures Split(Join(parts, sep), sep) == parts
  {
    SplitFromJoinRecovers(parts, sep, m, "");
    assert "" + parts[0] == parts[0];
    assert [parts[0]] + parts[1..] == parts;
  }

  // ---------------------------------------------------------------------
  // replace
  // ---------------------------------------------------------------------

  /**
   * `s.replace(pat, rep)`: every leftmost non-overlapping occurrence of a
   * non-empty `pat` is replaced; an empty `pat` inserts `rep` before every
   * character and at the end.
   */
  function Replace(s: string, pat: string, rep: string): string
  {
    if pat == [] then Interleave(s, rep) else ReplaceNonEmpty(s, pat, rep)
  }

  function Interleave(s: string, rep: string): string
  {
    if s == [] then rep else rep + [s[0]] + Interleave(s[1..], rep)
  }

  function ReplaceNonEmpty(s: string, pat: string, rep: string): string
    requires pat != []
    decreases |s|
  {
    if s == [] then ""
    else if StartsWith(s, pat) then rep + ReplaceNonEmpty(s[|pat|..], pat, rep)
    else [s[0]] + ReplaceNonEmpty(s[1..], pat, rep)
  }

  lemma {:induction false} ReplaceFromSplit(s: string, pat: string, rep: string, cur: string)
    requires pat != []
    ensures Join(SplitFrom(s, pat, cur), rep) == cur + ReplaceNonEmpty(s, pat, rep)
    decreases |s|
  {
    if s == [] {
    } else if StartsWith(s, pat) {
      var rest := s[|pat|..];
      ReplaceFromSplit(rest, pat, rep, "");
      SplitFromJoin(rest, pat, "");
      JoinCons(cur, SplitFrom(rest, pat, ""), rep);
    } else {
      ReplaceFromSplit(s[1..], pat, rep, cur + [s[0]]);
    }
  }

  /** Python's identity `s.replace(a, b) == b.join(s.split(a))` for a non-empty `a`. */
  lemma ReplaceIsSplitJoin(s: string, pat: string, rep: string)
    requires pat != []
    ensures Replace(s, pat, rep) == Join(Split(s, pat), rep)
  {
    ReplaceFromSplit(s, pat, rep, "");
  }

  /** `s` with every `c` left out. */
  function Without(s: string, c: char): string
  {
    if s == [] then "" else (if s[0] == c then "" else [s[0]]) + Without(s[1..], c)
  }

  /** Replacing a single character by nothing filters that character out. */
  lemma {:induction false} ReplaceCharByNothing(s: string, c: char)
    ensures Replace(s, [c], "") == Without(s, c)
    ensures c !in Without(s, c)
    ensures c !in s ==> Without(s, c) == s
  {
    if s != [] {
      ReplaceCharByNothing(s[1..], c);
      assert StartsWith(s, [c]) <==> s[0] == c;
      if s[0] != c {
        assert [s[0]] + s[1..] == s;
      }
    }
  }

  /** Removing a character from a concatenation removes it from each side. */
  lemma {:induction false} WithoutAppend(a: string, b: string, c: char)
    ensures Without(a + b, c) == Without(a, c) + Without(b, c)
  {
    if a != [] {
      assert (a + b)[1..] == a[1..] + b;
      WithoutAppend(a[1..], b, c);
    } else {
      assert a + b == b;
    }
  }

  // ---------------------------------------------------------------------
  // Whitespace: isspace, split(), strip()
  // ---------------------------------------------------------------------

  /** `c.isspace()` for a Python 3 `str`. */
  predicate IsSpace(c: char)
  {
    || ('\t' <= c <= '\r')
    || ('\U{1C}' <= c <= '\U{1F}')
    || c == ' ' || c == '\U{85}' || c == '\U{A0}' || c == '\U{1680}'
    || ('\U{2000}' <= c <= '\U{200A}')
    || c == '\U{2028}' || c == '\U{2029}' || c == '\U{202F}' || c == '\U{205F}' || c == '\U{3000}'
  }

  predicate NoSpace(s: string)
  {
    forall k :: 0 <= k < |s| ==> !IsSpace(s[k])
  }

  /** `s.split()`: the maximal runs of non-whitespace characters. */
  function Words(s: string): seq<string>
  {
    WordsFrom(s, "")
  }

  /** The words of `s` when the word being built already holds `cur`. */
  function WordsFrom(s: string, cur: string): seq<string>
    decreases |s|
  {
    if s == [] then (if cur == [] then [] else [cur])
    else if IsSpace(s[0]) then (if cur == [] then [] else [cur]) + WordsFrom(s[1..], "")
    else WordsFrom(s[1..], cur + [s[0]])
  }

  /** What makes a list of tokens a valid result of `split()`. */
  predicate ValidWords(ws: seq<string>)
  {
    forall k :: 0 <= k < |ws| ==> ws[k] != [] && NoSpace(ws[k])
  }

  /** Every word is non-empty, free of whitespace, and made of characters of the input. */
  lemma {:induction false} WordsFromShape(s: string, cur: string)
    requires NoSpace(cur)
    ensures ValidWords(WordsFrom(s, cur))
    ensures forall w, c :: w in WordsFrom(s, cur) && c in w ==> c in cur || c in s
    decreases |s|
  {
    if s != [] {
      if IsSpace(s[0]) {
        WordsFromShape(s[1..], "");
      } else {
        WordsFromShape(s[1..], cur + [s[0]]);
      }
    }
  }

  /** Words keep any property that all the characters of the input have. */
  lemma WordsChars(s: string, P: char -> bool)
    requires AllChars(s, P)
    ensures forall i :: 0 <= i < |Words(s)| ==> AllChars(Words(s)[i], P)
  {
    WordsFromShape(s, "");
    forall i, k | 0 <= i < |Words(s)| && 0 <= k < |Words(s)[i]| ensures P(Words(s)[i][k]) {
      assert Words(s)[i][k] in Words(s)[i];
      assert Words(s)[i] in Words(s);
      var j :| 0 <= j < |s| && s[j] == Words(s)[i][k];
    }
  }

  lemma WordsShape(s: string)
    ensures ValidWords(Words(s))
    ensures forall w, c :: w in Words(s) && c in w ==> c in s
  {
    WordsFromShape(s, "");
  }

  lemma {:induction false} WordsFromWord(w: string, rest: string, cur: string)
    requires NoSpace(w)
    requires rest == [] || IsSpace(rest[0])
    ensures WordsFrom(w + rest, cur) == WordsFrom(rest, cur + w)
    decreases |w|
  {
    if w != [] {
      assert (w + rest)[1..] == w[1..] + rest;
      WordsFromWord(w[1..], rest, cur + [w[0]]);
      assert cur + [w[0]] + w[1..] == cur + w;
    } else {
      assert w + rest == rest;
      assert cur + w == cur;
    }
  }

  lemma {:induction false} WordsOfJoin(ws: seq<string>)
    requires ValidWords(ws)
    ensures Words(Join(ws, " ")) == ws
    decreases |ws|
  {
    if |ws| == 1 {
      WordsFromWord(ws[0], "", "");
      assert ws[0] + "" == ws[0];
    } else if |ws| > 1 {
      var rest := Join(ws[1..], " ");
      assert forall k :: 0 <= k < |ws[1..]| ==> ws[1..][k] == ws[k + 1];
      WordsOfJoin(ws[1..]);
      assert Join(ws, " ") == ws[0] + (" " + rest);
      WordsFromWord(ws[0], " " + rest, "");
      assert "" + ws[0] == ws[0];
      assert (" " + rest)[0] == ' ' && (" " + rest)[1..] == rest;
      assert WordsFrom(" " + rest, ws[0]) == [ws[0]] + WordsFrom(rest, "");
      assert [ws[0]] + ws[1..] == ws;
    }
  }

  /** `strip()`: whitespace removed from both ends. */
  function Strip(s: string): string
  {
    StripRight(StripLeft(s))
  }

  /** Strip only removes characters from the ends. */
  lemma {:induction false} StripChars(s: string, P: char -> bool)
    requires AllChars(s, P)
    ensures AllChars(Strip(s), P)
  {
    StripLeftIsSuffix(s);
    StripRightIsPrefix(StripLeft(s));
  }

  lemma {:induction false} StripLeftIsSuffix(s: string)
    ensures exists k :: 0 <= k <= |s| && StripLeft(s) == s[k..]
    decreases |s|
  {
    if s != [] && IsSpace(s[0]) {
      StripLeftIsSuffix(s[1..]);
      var k :| 0 <= k <= |s[1..]| && StripLeft(s[1..]) == s[1..][k..];
      assert s[1..][k..] == s[k + 1..];
    } else {
      assert s == s[0..];
    }
  }

  lemma {:induction false} StripRightIsPrefix(s: string)
    ensures exists k :: 0 <= k <= |s| && StripRight(s) == s[..k]
    decreases |s|
  {
    if s != [] && IsSpace(s[|s| - 1]) {
      StripRightIsPrefix(s[..|s| - 1]);
      var k :| 0 <= k <= |s| - 1 && StripRight(s[..|s| - 1]) == s[..|s| - 1][..k];
      assert s[..|s| - 1][..k] == s[..k];
    } else {
      assert s == s[..|s|];
    }
  }

  function StripLeft(s: string): string
    decreases |s|
  {
    if s != [] && IsSpace(s[0]) then StripLeft(s[1..]) else s
  }

  function StripRight(s: string): string
    decreases |s|
  {
    if s != [] && IsSpace(s[|s| - 1]) then StripRight(s[..|s| - 1]) else s
  }

  // ---------------------------------------------------------------------
  // int() on decimal strings
  // ---------------------------------------------------------------------

  predicate IsDigit(c: char)
  {
    '0' <= c <= '9'
  }

  /** The value of a string of decimal digits, most significant first. */
  function DigitsValue(ds: string): nat
    requires forall k :: 0 <= k < |ds| ==> IsDigit(ds[k])
  {
    if ds == [] then 0
    else
      assert IsDigit(ds[|ds| - 1]);
      10 * DigitsValue(ds[..|ds| - 1]) + (ds[|ds| - 1] as int - '0' as int)
  }

  /** `int(s)` on a decimal string: surrounding whitespace, an optional sign, then at least one digit. */
  function ParseInt(s: string): Option<int>
  {
    var t := Strip(s);
    var neg := t != [] && t[0] == '-';
    var ds := if t != [] && (t[0] == '-' || t[0] == '+') then t[1..] else t;
    if ds != [] && forall k :: 0 <= k < |ds| ==> IsDigit(ds[k]) then
      var v: int := DigitsValue(ds);
      Some(if neg then -v else v)
    else None
  }

  /** `str(n)` for a natural number. */
  function DecimalString(n: nat): string
  {
    if n < 10 then [('0' as int + n) as char]
    else DecimalString(n / 10) + [('0' as int + n % 10) as char]
  }

  lemma {:induction false} DecimalDigits(n: nat)
    ensures DecimalString(n) != []
    ensures forall k :: 0 <= k < |DecimalString(n)| ==> IsDigit(DecimalString(n)[k])
    ensures DigitsValue(DecimalString(n)) == n
  {
    if n >= 10 {
      DecimalDigits(n / 10);
      var ds := DecimalString(n);
      assert ds[..|ds| - 1] == DecimalString(n / 10);
    }
  }

  lemma StripNoSpace(s: string)
    requires NoSpace(s)
    ensures Strip(s) == s
  {
  }

  /** `int` reads back what `str` writes for every offset an annotation file can hold. */
  lemma ParseDecimal(n: nat)
    ensures ParseInt(DecimalString(n)) == Some(n)
  {
    DecimalDigits(n);
    StripNoSpace(DecimalString(n));
  }
}
