/**
 * The label and macro cells of a CSV row (`store_csv_json` in
 * src/amica_processing.py). The label cell is the record's label names joined
 * with `", "`, or only the first of them when labels are flattened; the macro
 * cell is the macro label. An empty cell is written as `"Negative"`.
 */
module AmicaCsv {
  import opened Wrappers
  import opened PyStr
  import opened AmicaConvert
  import opened AmicaEntries

  const NegativeCell := "Negative"

  /** The `label` cell: the label names joined with `", "` (only the first when flat), `"Negative"` when that is empty. */
  function LabelCell(labels: seq<LabelEntry>, flat: bool): string
  {
    var names := Names(labels);
    var joined := Join(if flat then names[..if |names| < 1 then |names| else 1] else names, ", ");
    if joined == "" then NegativeCell else joined
  }

  /** The `macro` cell: the macro label, `"Negative"` when it is missing or empty. */
  function MacroCell(macro: Option<string>): string
  {
    if macro.None? || macro.value == "" then NegativeCell else macro.value
  }

  /** Every label name is a non-empty word, as the `.ann` reader produces them. */
  predicate WellNamed(labels: seq<LabelEntry>)
  {
    forall i :: 0 <= i < |labels| ==> labels[i].name != [] && NoSpace(labels[i].name)
  }

  lemma NamesOf(labels: seq<LabelEntry>)
    ensures |Names(labels)| == |labels|
    ensures forall i :: 0 <= i < |labels| ==> Names(labels)[i] == labels[i].name
  {
    if labels != [] {
      NamesOf(labels[1..]);
    }
  }

  /** With a non-empty separator, a join is empty only for no parts or one empty part. */
  lemma {:induction false} JoinEmpty(parts: seq<string>, sep: string)
    requires sep != []
    ensures Join(parts, sep) == "" <==> parts == [] || (|parts| == 1 && parts[0] == "")
  {
    if |parts| > 1 {
      assert |Join(parts, sep)| >= |sep|;
    }
  }

  /**
   * A sentence with no labels gets `"Negative"`; otherwise, with well-formed
   * names, the cell holds exactly the label names: flattened it is the first
   * name, and unflattened it splits on `", "` back into all the names in
   * their first-seen order.
   */
  lemma LabelCellRule(labels: seq<LabelEntry>)
    ensures labels == [] ==> LabelCell(labels, true) == NegativeCell && LabelCell(labels, false) == NegativeCell
    ensures labels != [] && labels[0].name != "" ==> LabelCell(labels, true) == labels[0].name
    ensures labels != [] && WellNamed(labels) ==> Split(LabelCell(labels, false), ", ") == Names(labels)
  {
    NamesOf(labels);
    if labels != [] {
      var names := Names(labels);
      assert names[..1] == [labels[0].name];
      JoinEmpty(names, ", ");
      if WellNamed(labels) {
        assert names[0] != "";
        assert Anchored(names, ", ", 1) by {
          forall i | 0 <= i < |names| ensures ' ' !in names[i] {
            assert names[i] == labels[i].name;
            assert IsSpace(' ');
          }
        }
        JoinSplitRoundTrip(names, ", ", 1);
      }
    }
  }

  /** Flattening keeps only the first label. */
  lemma FlatIsFirstLabel(labels: seq<LabelEntry>)
    ensures LabelCell(labels, true) == LabelCell(labels[..if |labels| < 1 then |labels| else 1], false)
  {
    NamesOf(labels);
    NamesOf(labels[..if |labels| < 1 then |labels| else 1]);
    assert Names(labels)[..if |labels| < 1 then |labels| else 1] == Names(labels[..if |labels| < 1 then |labels| else 1]);
  }

  /**
   * The flattened label cell of a sentence is the label of its first
   * non-macro annotation (`"Negative"` when that label is empty); a sentence
   * with no non-macro annotation gets `"Negative"` in both forms.
   */
  lemma FlatCellIsFirstAnnotation(annotations: map<int, Annotation>, start: int, n: nat)
    requires Scan(annotations, start, n).Success?
    ensures var labels, first := Scan(annotations, start, n).value.labels, NonMacroLabels(annotations, start, n);
      && (first == [] ==> LabelCell(labels, true) == NegativeCell && LabelCell(labels, false) == NegativeCell)
      && (first != [] ==> LabelCell(labels, true) == if first[0] == "" then NegativeCell else first[0])
  {
    var labels, first := Scan(annotations, start, n).value.labels, NonMacroLabels(annotations, start, n);
    ScanLabelOrder(annotations, start, n);
    NamesOf(labels);
    if first == [] {
      assert labels == [];
    } else {
      FirstSeenHead(first);
      assert labels[0].name == first[0];
      if first[0] == "" {
        assert Names(labels)[..1] == [""];
      }
    }
    LabelCellRule(labels);
  }

  /** The macro cell is `"Negative"` exactly when there is no macro, an empty one or one named so. */
  lemma MacroCellRule(macro: Option<string>)
    ensures MacroCell(macro) == NegativeCell <==> macro == None || macro == Some("") || macro == Some(NegativeCell)
    ensures macro.Some? && macro.value != "" ==> MacroCell(macro) == macro.value
  {
  }

  lemma {:induction false} AddLabelWellNamed(labels: seq<LabelEntry>, name: string, text: Option<string>)
    requires WellNamed(labels) && name != [] && NoSpace(name)
    ensures WellNamed(AddLabel(labels, name, text))
  {
    if labels != [] {
      var r, rest := AddLabel(labels, name, text), labels[1..];
      assert WellNamed(rest) by {
        forall i | 0 <= i < |rest| ensures rest[i].name != [] && NoSpace(rest[i].name) {
          assert rest[i] == labels[i + 1];
        }
      }
      var tail := if labels[0].name == name then rest else AddLabel(rest, name, text);
      if labels[0].name != name {
        AddLabelWellNamed(rest, name, text);
      }
      assert r == [r[0]] + tail;
      forall i | 0 <= i < |r| ensures r[i].name != [] && NoSpace(r[i].name) {
        if i > 0 {
          assert r[i] == tail[i - 1];
        }
      }
    }
  }

  /** A label read by `convert` is the first word of its line's second column. */
  lemma ParsedLabelIsWord(a: seq<string>)
    requires ParseLine(a).Parsed?
    ensures ParseLine(a).ann.labelName != [] && NoSpace(ParseLine(a).ann.labelName)
  {
    WordsShape(a[1]);
  }

  /**
   * When the annotations in a sentence's range carry word labels, as those
   * read by `convert` do, the sentence's unflattened label cell splits on
   * `", "` back into its label names, or is `"Negative"` when it has none.
   */
  lemma {:induction false} SentenceLabelCell(annotations: map<int, Annotation>, start: int, n: nat)
    requires Scan(annotations, start, n).Success?
    requires forall p :: InRange(p, start, n) && p in annotations ==>
      annotations[p].labelName != [] && NoSpace(annotations[p].labelName)
    ensures var labels := Scan(annotations, start, n).value.labels;
      && WellNamed(labels)
      && (labels == [] ==> LabelCell(labels, false) == NegativeCell)
      && (labels != [] ==> Split(LabelCell(labels, false), ", ") == Names(labels))
    decreases n
  {
    var labels := Scan(annotations, start, n).value.labels;
    if n > 0 {
      SentenceLabelCell(annotations, start, n - 1);
      var p := start + n - 1;
      var st := Scan(annotations, start, n - 1).value;
      assert WellNamed(labels) by {
        if p in annotations && !IsMacro(annotations[p]) {
          assert labels == AddLabel(st.labels, annotations[p].labelName, annotations[p].text);
          AddLabelWellNamed(st.labels, annotations[p].labelName, annotations[p].text);
        } else {
          assert labels == st.labels;
        }
      }
    }
    LabelCellRule(labels);
  }
}
