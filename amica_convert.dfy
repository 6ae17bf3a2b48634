/**
 * Reading one brat file pair (`convert` in src/amica_processing.py): the
 * `.txt` lines become an index -> sentence map, and the `.ann` lines, already
 * split on tabs, become a start-offset -> annotation map. A malformed
 * annotation line (an `IndexError`) empties the annotation map; a token that
 * is not an integer (a `ValueError`) is not caught and aborts the conversion.
 */
module AmicaConvert {
  import opened Wrappers
  import opened PyStr

  /** One value of the annotation map: `{"t", "index", "text", "label"}`. */
  datatype Annotation = Annotation(t: int, index: seq<int>, text: Option<string>, labelName: string)

  /** What evaluating the comprehension on one `.ann` line does. */
  datatype LineOutcome = Parsed(start: int, ann: Annotation) | LineIndexError | LineValueError

  /** What the annotation comprehension does as a whole. */
  datatype AnnOutcome = Built(m: map<int, Annotation>) | IndexRaised | ValueRaised

  /** The pair `(text, ann)` that `convert` returns. */
  datatype Converted = Converted(text: map<int, string>, ann: map<int, Annotation>)

  /** The exception `convert` lets through. */
  datatype ConvertError = UncaughtValueError

  // ---------------------------------------------------------------------
  // The text map
  // ---------------------------------------------------------------------

  /** `[te.replace('\n', '') for te in txt if te != '\n']`. */
  function KeptLines(txt: seq<string>): seq<string>
  {
    if txt == [] then []
    else (if txt[0] == "\n" then [] else [Replace(txt[0], "\n", "")]) + KeptLines(txt[1..])
  }

  /** `{i: t for i, t in enumerate(kept)}`. */
  function TextMap(txt: seq<string>): map<int, string>
  {
    var kept := KeptLines(txt);
    map i | 0 <= i < |kept| :: kept[i]
  }

  // ---------------------------------------------------------------------
  // The annotation map
  // ---------------------------------------------------------------------

  /** `[int(x) for x in xs]`, or `None` when some `int()` raises. */
  function ParseInts(xs: seq<string>): Option<seq<int>>
  {
    if xs == [] then Some([])
    else match ParseInt(xs[0])
      case None => None
      case Some(v) =>
        match ParseInts(xs[1..])
        case None => None
        case Some(vs) => Some([v] + vs)
  }

  /**
   * One line of the comprehension, in Python's evaluation order: the key
   * `int(a[1].split()[1])` first, then `int(a[0][1:])`, the index integers,
   * `a[2]` and finally the label.
   */
  function ParseLine(a: seq<string>): LineOutcome
  {
    if |a| < 2 then LineIndexError
    else
      var ws := Words(a[1]);
      if |ws| < 2 then LineIndexError
      else match ParseInt(ws[1])
        case None => LineValueError
        case Some(start) =>
          match ParseInt(Slice(a[0], 1, |a[0]|))
          case None => LineValueError
          case Some(t) =>
            match ParseInts(ws[1..])
            case None => LineValueError
            case Some(index) =>
              if |a| < 3 then LineIndexError
              else
                var text := if '¶' in a[2] then None else Some(Replace(a[2], "\n", ""));
                Parsed(start, Annotation(t, index, text, ws[0]))
  }

  /** The outcome of each `.ann` line taken on its own. */
  function Outcomes(lines: seq<seq<string>>): seq<LineOutcome>
  {
    seq(|lines|, i requires 0 <= i < |lines| => ParseLine(lines[i]))
  }

  /** The comprehension over line outcomes: later keys overwrite earlier ones; the first exception stops it. */
  function Collect(os: seq<LineOutcome>): AnnOutcome
    decreases |os|
  {
    if os == [] then Built(map[])
    else match Collect(os[..|os| - 1])
      case Built(m) =>
        (match os[|os| - 1]
         case Parsed(k, a) => Built(m[k := a])
         case LineIndexError => IndexRaised
         case LineValueError => ValueRaised)
      case IndexRaised => IndexRaised
      case ValueRaised => ValueRaised
  }

  /** The annotation comprehension of `convert`. */
  function AnnFrom(lines: seq<seq<string>>): AnnOutcome
  {
    Collect(Outcomes(lines))
  }

  /** `convert(ann, txt)`. */
  function Convert(ann: seq<seq<string>>, txt: seq<string>): Result<Converted, ConvertError>
  {
    match AnnFrom(ann)
    case Built(m) => Success(Converted(TextMap(txt), m))
    case IndexRaised => Success(Converted(TextMap(txt), map[]))
    case ValueRaised => Failure(UncaughtValueError)
  }

  // ---------------------------------------------------------------------
  // The text map keeps every non-blank line, in order, keyed 0..n-1
  // ---------------------------------------------------------------------

  lemma {:induction false} KeptLinesAppend(a: seq<string>, b: seq<string>)
    ensures KeptLines(a + b) == KeptLines(a) + KeptLines(b)
  {
    if a != [] {
      var head := if a[0] == "\n" then [] else [Replace(a[0], "\n", "")];
      assert (a + b)[0] == a[0] && (a + b)[1..] == a[1..] + b;
      assert KeptLines(a + b) == head + KeptLines(a[1..] + b);
      assert KeptLines(a) == head + KeptLines(a[1..]);
      KeptLinesAppend(a[1..], b);
    } else {
      assert a + b == b;
    }
  }

  /**
   * Line `j` of the `.txt` file, unless it is exactly `"\n"`, is stored
   * without its newlines under the number of kept lines before it; the keys
   * are exactly `0..n-1` where `n` counts the kept lines, and no stored
   * sentence holds a newline.
   */
  lemma TextMapKeepsLines(txt: seq<string>, j: nat)
    requires j < |txt|
    ensures var n := |KeptLines(txt)|;
      && n <= |txt|
      && (forall i :: i in TextMap(txt) <==> 0 <= i < n)
      && (txt[j] != "\n" ==>
        |KeptLines(txt[..j])| in TextMap(txt) && TextMap(txt)[|KeptLines(txt[..j])|] == Without(txt[j], '\n'))
  {
    KeptLinesBound(txt);
    assert txt == txt[..j] + [txt[j]] + txt[j + 1..];
    KeptLinesAppend(txt[..j] + [txt[j]], txt[j + 1..]);
    KeptLinesAppend(txt[..j], [txt[j]]);
    assert KeptLines(txt) == KeptLines(txt[..j]) + KeptLines([txt[j]]) + KeptLines(txt[j + 1..]);
    assert KeptLines([txt[j]]) == (if txt[j] == "\n" then [] else [Replace(txt[j], "\n", "")]);
    ReplaceCharByNothing(txt[j], '\n');
    if txt[j] != "\n" {
      var p := |KeptLines(txt[..j])|;
      assert KeptLines(txt)[p] == Replace(txt[j], "\n", "");
      assert p in TextMap(txt);
    }
  }

  /**
   * One more line of the file adds one sentence, the line without its
   * newlines, unless the line is a lone `"\n"`, which adds nothing.
   */
  lemma {:induction false} KeptLinesStep(txt: seq<string>, j: nat)
    requires j < |txt|
    ensures KeptLines(txt[..j + 1]) == KeptLines(txt[..j]) + (if txt[j] == "\n" then [] else [Without(txt[j], '\n')])
    ensures |KeptLines(txt[..j + 1])| == |KeptLines(txt[..j])| + (if txt[j] == "\n" then 0 else 1)
  {
    assert txt[..j + 1] == txt[..j] + [txt[j]];
    KeptLinesAppend(txt[..j], [txt[j]]);
    assert [txt[j]][1..] == [];
    ReplaceCharByNothing(txt[j], '\n');
  }

  /** Every key of the text map is the number of a line that is not a lone `"\n"`. */
  lemma {:induction false} TextMapKeysFromLines(txt: seq<string>)
    ensures forall i :: i in TextMap(txt) ==>
      exists j :: 0 <= j < |txt| && txt[j] != "\n" && |KeptLines(txt[..j])| == i
    decreases |txt|
  {
    if txt != [] {
      var m := |txt| - 1;
      var prefix := txt[..m];
      TextMapKeysFromLines(prefix);
      KeptLinesStep(txt, m);
      assert txt[..m + 1] == txt;
      forall i | i in TextMap(txt)
        ensures exists j :: 0 <= j < |txt| && txt[j] != "\n" && |KeptLines(txt[..j])| == i
      {
        if i < |KeptLines(prefix)| {
          assert i in TextMap(prefix);
          var j :| 0 <= j < |prefix| && prefix[j] != "\n" && |KeptLines(prefix[..j])| == i;
          assert prefix[..j] == txt[..j];
          assert txt[j] != "\n";
        } else {
          assert txt[m] != "\n" && |KeptLines(txt[..m])| == i;
        }
      }
    }
  }

  lemma {:induction false} KeptLinesBound(txt: seq<string>)
    ensures |KeptLines(txt)| <= |txt|
    ensures forall i :: 0 <= i < |KeptLines(txt)| ==> '\n' !in KeptLines(txt)[i]
  {
    if txt != [] {
      KeptLinesBound(txt[1..]);
      ReplaceCharByNothing(txt[0], '\n');
      var head := if txt[0] == "\n" then [] else [Replace(txt[0], "\n", "")];
      assert forall i :: 0 <= i < |KeptLines(txt[1..])| ==> KeptLines(txt)[|head| + i] == KeptLines(txt[1..])[i];
    }
  }

  /** A file with no blank lines keeps every line, each at its own line number. */
  lemma TextMapNoBlankLines(txt: seq<string>)
    requires forall j :: 0 <= j < |txt| ==> txt[j] != "\n"
    ensures forall i :: i in TextMap(txt) <==> 0 <= i < |txt|
    ensures forall i :: 0 <= i < |txt| ==> TextMap(txt)[i] == Without(txt[i], '\n')
  {
    KeptLinesAll(txt);
    forall i | 0 <= i < |txt| ensures TextMap(txt)[i] == Without(txt[i], '\n') {
      ReplaceCharByNothing(txt[i], '\n');
    }
  }

  lemma {:induction false} KeptLinesAll(txt: seq<string>)
    requires forall j :: 0 <= j < |txt| ==> txt[j] != "\n"
    ensures |KeptLines(txt)| == |txt|
    ensures forall i :: 0 <= i < |txt| ==> KeptLines(txt)[i] == Replace(txt[i], "\n", "")
  {
    if txt != [] {
      KeptLinesAll(txt[1..]);
    }
  }

  // ---------------------------------------------------------------------
  // One annotation line
  // ---------------------------------------------------------------------

  /** The tab-separated fields of a well-formed text-bound annotation line. */
  function AnnLine(id: nat, labelName: string, start: nat, end: nat, text: string): seq<string>
  {
    ["T" + DecimalString(id), labelName + " " + DecimalString(start) + " " + DecimalString(end), text + "\n"]
  }

  /**
   * A well-formed line is keyed by its start offset and holds its id, both
   * offsets, its text without the newline and its label; its text is `None`
   * exactly when it contains `'¶'`.
   */
  lemma ParseAnnLine(id: nat, labelName: string, start: nat, end: nat, text: string)
    requires labelName != [] && NoSpace(labelName)
    requires '\n' !in text
    ensures ParseLine(AnnLine(id, labelName, start, end, text))
      == Parsed(start, Annotation(id, [start, end], if '¶' in text then None else Some(text), labelName))
  {
    var a := AnnLine(id, labelName, start, end, text);
    AnnLineWords(labelName, start, end);
    var ws := Words(a[1]);
    ParseDecimal(start);
    ParseDecimal(id);
    assert Slice(a[0], 1, |a[0]|) == DecimalString(id);
    ParseOffsets(start, end);
    assert ws[1..] == [DecimalString(start), DecimalString(end)];
    assert '¶' in a[2] <==> '¶' in text;
    assert Replace(a[2], "\n", "") == text by {
      ReplaceCharByNothing(text + "\n", '\n');
      WithoutAppend(text, "\n", '\n');
      ReplaceCharByNothing(text, '\n');
    }
  }

  /** The second column of a well-formed line splits into the label and the two offsets. */
  lemma AnnLineWords(labelName: string, start: nat, end: nat)
    requires labelName != [] && NoSpace(labelName)
    ensures Words(labelName + " " + DecimalString(start) + " " + DecimalString(end))
      == [labelName, DecimalString(start), DecimalString(end)]
  {
    var s, e := DecimalString(start), DecimalString(end);
    assert ValidWords([labelName, s, e]) by {
      DecimalWord(start);
      DecimalWord(end);
    }
    assert Join([labelName, s, e], " ") == labelName + " " + s + " " + e by {
      JoinCons(labelName, [s, e], " ");
      JoinCons(s, [e], " ");
    }
    WordsOfJoin([labelName, s, e]);
  }

  /** A number written in decimal is a word. */
  lemma DecimalWord(n: nat)
    ensures DecimalString(n) != [] && NoSpace(DecimalString(n))
  {
    DecimalDigits(n);
    var s := DecimalString(n);
    forall k | 0 <= k < |s| ensures !IsSpace(s[k]) {
      assert IsDigit(s[k]);
    }
  }

  /** Both offsets written in decimal parse back. */
  lemma ParseOffsets(start: nat, end: nat)
    ensures ParseInts([DecimalString(start), DecimalString(end)]) == Some([start as int, end as int])
  {
    ParseDecimal(start);
    ParseDecimal(end);
    var s, e := DecimalString(start), DecimalString(end);
    var startInt: int, endInt: int := start, end;
    assert [s, e][1..] == [e] && [e][1..] == [];
    assert [endInt] + [] == [endInt];
    assert ParseInts([e]) == Some([endInt]);
    assert [startInt] + [endInt] == [startInt, endInt];
  }

  /** A line with fewer than two fields, or whose second field has fewer than two words, raises `IndexError`. */
  lemma ShortLineIndexError(a: seq<string>)
    requires |a| < 2 || |Words(a[1])| < 2
    ensures ParseLine(a) == LineIndexError
  {
  }

  // ---------------------------------------------------------------------
  // The annotation map as a whole
  // ---------------------------------------------------------------------

  /** Every line before `n` was parsed. */
  predicate ParsedUpTo(os: seq<LineOutcome>, n: nat)
    requires n <= |os|
  {
    forall j :: 0 <= j < n ==> os[j].Parsed?
  }

  /**
   * The comprehension builds a map exactly when every line parses; it ends
   * in `IndexError` exactly when the first line that does not parse raises
   * `IndexError`, and in `ValueError` exactly when it raises `ValueError`.
   */
  lemma {:induction false} CollectOutcome(os: seq<LineOutcome>)
    ensures Collect(os).Built? <==> ParsedUpTo(os, |os|)
    ensures Collect(os) == IndexRaised <==>
      exists i :: 0 <= i < |os| && ParsedUpTo(os, i) && os[i] == LineIndexError
    ensures Collect(os) == ValueRaised <==>
      exists i :: 0 <= i < |os| && ParsedUpTo(os, i) && os[i] == LineValueError
    decreases |os|
  {
    if os != [] {
      var n := |os| - 1;
      var prefix := os[..n];
      CollectOutcome(prefix);
      assert forall j :: 0 <= j < n ==> prefix[j] == os[j];
      assert forall i :: 0 <= i <= n ==> (ParsedUpTo(prefix, i) <==> ParsedUpTo(os, i));
      match Collect(prefix)
      case Built(m) =>
      case IndexRaised =>
        var i :| 0 <= i < n && ParsedUpTo(prefix, i) && prefix[i] == LineIndexError;
        assert !ParsedUpTo(os, |os|);
        FirstFailureUnique(os, i);
      case ValueRaised =>
        var i :| 0 <= i < n && ParsedUpTo(prefix, i) && prefix[i] == LineValueError;
        assert !ParsedUpTo(os, |os|);
        FirstFailureUnique(os, i);
    }
  }

  /** There is only one first line that does not parse. */
  lemma FirstFailureUnique(os: seq<LineOutcome>, i: nat)
    requires i < |os| && ParsedUpTo(os, i) && !os[i].Parsed?
    ensures forall j :: 0 <= j < |os| && ParsedUpTo(os, j) && !os[j].Parsed? ==> j == i
  {
  }

  /**
   * When the map is built, a start offset is a key exactly when some line
   * has it as its key, and it holds the record of the last such line.
   */
  lemma CollectLastWins(os: seq<LineOutcome>, k: int)
    requires Collect(os).Built?
    ensures k in Collect(os).m <==> exists i :: 0 <= i < |os| && os[i].Parsed? && os[i].start == k
    ensures forall i :: (0 <= i < |os| && os[i].Parsed? && os[i].start == k
      && (forall j :: i < j < |os| && os[j].Parsed? ==> os[j].start != k)) ==> Collect(os).m[k] == os[i].ann
  {
    CollectKeys(os, k);
    forall i | 0 <= i < |os| && os[i].Parsed? && os[i].start == k
        && (forall j :: i < j < |os| && os[j].Parsed? ==> os[j].start != k)
      ensures Collect(os).m[k] == os[i].ann
    {
      CollectLast(os, k, i);
    }
  }

  /** Which offsets the comprehension stores: one per parsed line. */
  lemma {:induction false} CollectKeys(os: seq<LineOutcome>, k: int)
    requires Collect(os).Built?
    ensures k in Collect(os).m <==> exists i :: 0 <= i < |os| && os[i].Parsed? && os[i].start == k
    decreases |os|
  {
    if os != [] {
      var n := |os| - 1;
      var prefix, o := os[..n], os[n];
      assert Collect(prefix).Built? && o.Parsed?;
      CollectKeys(prefix, k);
      assert Collect(os).m == Collect(prefix).m[o.start := o.ann];
      if k != o.start {
        if exists i :: 0 <= i < |os| && os[i].Parsed? && os[i].start == k {
          var i :| 0 <= i < |os| && os[i].Parsed? && os[i].start == k;
          assert prefix[i] == os[i];
        }
        if k in Collect(prefix).m {
          var i :| 0 <= i < n && prefix[i].Parsed? && prefix[i].start == k;
          assert prefix[i] == os[i];
        }
      }
    }
  }

  /** The value stored under an offset comes from the last line with that offset. */
  lemma {:induction false} CollectLast(os: seq<LineOutcome>, k: int, i: nat)
    requires Collect(os).Built?
    requires i < |os| && os[i].Parsed? && os[i].start == k
    requires forall j :: i < j < |os| && os[j].Parsed? ==> os[j].start != k
    ensures k in Collect(os).m && Collect(os).m[k] == os[i].ann
    decreases |os|
  {
    var n := |os| - 1;
    var prefix, o := os[..n], os[n];
    assert Collect(prefix).Built? && o.Parsed?;
    assert Collect(os).m == Collect(prefix).m[o.start := o.ann];
    if i < n {
      assert prefix[i] == os[i];
      assert forall j :: i < j < n && prefix[j].Parsed? ==> prefix[j].start != k by {
        assert forall j :: i < j < n ==> prefix[j] == os[j];
      }
      CollectLast(prefix, k, i);
    }
  }

  /**
   * When every line parses, a start offset is a key of the annotation map
   * exactly when some line has it as its key, and it holds the record of the
   * last line with that key.
   */
  lemma AnnFromLastWins(lines: seq<seq<string>>, k: int)
    requires forall i :: 0 <= i < |lines| ==> ParseLine(lines[i]).Parsed?
    ensures AnnFrom(lines).Built?
    ensures k in AnnFrom(lines).m <==>
      exists i :: 0 <= i < |lines| && ParseLine(lines[i]).Parsed? && ParseLine(lines[i]).start == k
    ensures forall i :: (0 <= i < |lines| && ParseLine(lines[i]).Parsed? && ParseLine(lines[i]).start == k
      && (forall j :: i < j < |lines| ==> ParseLine(lines[j]).start != k)) ==>
      AnnFrom(lines).m[k] == ParseLine(lines[i]).ann
  {
    var os := Outcomes(lines);
    assert |os| == |lines| && forall i :: 0 <= i < |lines| ==> os[i] == ParseLine(lines[i]);
    CollectOutcome(os);
    CollectLastWins(os, k);
  }

  /**
   * `convert` fails exactly when the first line that does not parse raises
   * `ValueError`; otherwise the text map is the same whatever the `.ann`
   * lines hold, and the annotation map is the built map, or empty after an
   * `IndexError`.
   */
  lemma ConvertOutcome(ann: seq<seq<string>>, txt: seq<string>)
    ensures Convert(ann, txt).Failure? <==>
      exists i :: 0 <= i < |ann| && ParsedUpTo(Outcomes(ann), i) && ParseLine(ann[i]) == LineValueError
    ensures Convert(ann, txt).Success? ==> Convert(ann, txt).value.text == TextMap(txt)
    ensures (exists i :: 0 <= i < |ann| && ParsedUpTo(Outcomes(ann), i) && ParseLine(ann[i]) == LineIndexError) ==>
      Convert(ann, txt) == Success(Converted(TextMap(txt), map[]))
    ensures ParsedUpTo(Outcomes(ann), |ann|) ==>
      AnnFrom(ann).Built? && Convert(ann, txt) == Success(Converted(TextMap(txt), AnnFrom(ann).m))
  {
    CollectOutcome(Outcomes(ann));
  }
}
