/**
 * Filling an entry with per-sentence records (`entry_to_data` in
 * src/amica_processing.py, with `error_check=False`). The sentences are
 * visited in increasing index order with a character cursor that starts at
 * 0, advances by one per character and by one more after each sentence for
 * the line separator. At each cursor value that is the start offset of an
 * annotation, a width-1 annotation sets the sentence's macro label and any
 * other annotation's text is appended to the list of its label.
 */
module AmicaEntries {
  import opened Wrappers
  import opened PyStr
  import opened AmicaConvert

  /** One key of the ordered `labels` dict with the texts appended under it. */
  datatype LabelEntry = LabelEntry(name: string, texts: seq<Option<string>>)

  /** `{"sentence", "labels", "macro", "scope"}`. */
  datatype SentenceRecord = SentenceRecord(sentence: string, labels: seq<LabelEntry>, macro: Option<string>, scope: char)

  /** `ann["index"][1]` on an annotation whose index has fewer than two integers. */
  datatype EntryError = IndexOutOfRange(position: int)

  /** The per-sentence state of the inner loop. */
  datatype ScanState = ScanState(labels: seq<LabelEntry>, macro: Option<string>)

  /** The entry object; `entry["data"]` is filled in place. */
  class Entry {
    var data: map<int, SentenceRecord>

    constructor ()
      ensures data == map[]
    {
      data := map[];
    }
  }

  // ---------------------------------------------------------------------
  // The insertion-ordered `labels` dict
  // ---------------------------------------------------------------------

  /** `labels[label].append(text)`, or `labels[label] = [text]` on `KeyError`. */
  function AddLabel(labels: seq<LabelEntry>, name: string, text: Option<string>): seq<LabelEntry>
  {
    if labels == [] then [LabelEntry(name, [text])]
    else if labels[0].name == name then [LabelEntry(name, labels[0].texts + [text])] + labels[1..]
    else [labels[0]] + AddLabel(labels[1..], name, text)
  }

  /** `labels.get(name, [])`. */
  function Lookup(labels: seq<LabelEntry>, name: string): seq<Option<string>>
  {
    if labels == [] then []
    else if labels[0].name == name then labels[0].texts
    else Lookup(labels[1..], name)
  }

  /** `list(labels.keys())`. */
  function Names(labels: seq<LabelEntry>): seq<string>
  {
    if labels == [] then [] else [labels[0].name] + Names(labels[1..])
  }

  predicate Distinct(names: seq<string>)
  {
    forall i, j :: 0 <= i < j < |names| ==> names[i] != names[j]
  }

  /**
   * Appending under a name extends that name's list by one text and leaves
   * every other list alone; a new name goes to the end of the key order.
   */
  lemma AddLabelEffect(labels: seq<LabelEntry>, name: string, text: Option<string>)
    ensures forall other :: Lookup(AddLabel(labels, name, text), other) ==
                              (if other == name then Lookup(labels, name) + [text] else Lookup(labels, other))
    ensures Names(AddLabel(labels, name, text)) == if name in Names(labels) then Names(labels) else Names(labels) + [name]
    ensures Distinct(Names(labels)) ==> Distinct(Names(AddLabel(labels, name, text)))
  {
    forall other ensures Lookup(AddLabel(labels, name, text), other) ==
                           (if other == name then Lookup(labels, name) + [text] else Lookup(labels, other))
    {
      AddLabelLookup(labels, name, text, other);
    }
    AddLabelNames(labels, name, text);
  }

  lemma {:induction false} AddLabelLookup(labels: seq<LabelEntry>, name: string, text: Option<string>, other: string)
    ensures Lookup(AddLabel(labels, name, text), other) ==
              (if other == name then Lookup(labels, name) + [text] else Lookup(labels, other))
  {
    if labels != [] && labels[0].name != name {
      AddLabelLookup(labels[1..], name, text, other);
    }
  }

  lemma {:induction false} AddLabelNames(labels: seq<LabelEntry>, name: string, text: Option<string>)
    ensures Names(AddLabel(labels, name, text)) == if name in Names(labels) then Names(labels) else Names(labels) + [name]
    ensures Distinct(Names(labels)) ==> Distinct(Names(AddLabel(labels, name, text)))
  {
    if labels != [] && labels[0].name != name {
      var head, rest := labels[0].name, Names(labels[1..]);
      var added := Names(AddLabel(labels[1..], name, text));
      AddLabelNames(labels[1..], name, text);
      assert Names(labels) == [head] + rest;
      assert Names(AddLabel(labels, name, text)) == [head] + added;
      if Distinct(Names(labels)) {
        DistinctTail(Names(labels));
        assert Names(labels)[1..] == rest;
        assert head !in added;
        DistinctCons(head, added);
      }
    } else if labels != [] {
      assert Names(AddLabel(labels, name, text)) == [name] + Names(labels[1..]);
    }
  }

  lemma DistinctCons(name: string, names: seq<string>)
    requires Distinct(names) && name !in names
    ensures Distinct([name] + names)
  {
    var all := [name] + names;
    forall i, j | 0 <= i < j < |all| ensures all[i] != all[j] {
      assert all[j] == names[j - 1];
      if i > 0 {
        assert all[i] == names[i - 1];
      }
    }
  }

  lemma DistinctTail(names: seq<string>)
    requires names != [] && Distinct(names)
    ensures Distinct(names[1..]) && names[0] !in names[1..]
  {
    var tail := names[1..];
    forall i, j | 0 <= i < j < |tail| ensures tail[i] != tail[j] {
      assert tail[i] == names[i + 1] && tail[j] == names[j + 1];
    }
    forall i | 0 <= i < |tail| ensures tail[i] != names[0] {
      assert tail[i] == names[i + 1];
    }
  }

  /** A name has a non-empty list exactly when it is a key. */
  lemma {:induction false} LookupNames(labels: seq<LabelEntry>, name: string)
    requires forall i :: 0 <= i < |labels| ==> labels[i].texts != []
    ensures Lookup(labels, name) != [] <==> name in Names(labels)
  {
    if labels != [] {
      LookupNames(labels[1..], name);
    }
  }

  // ---------------------------------------------------------------------
  // One sentence: the inner loop
  // ---------------------------------------------------------------------

  /** `ann["index"][1] - ann["index"][0] == 1` (defined when the index has two integers). */
  predicate IsMacro(a: Annotation)
  {
    |a.index| >= 2 && a.index[1] - a.index[0] == 1
  }

  /** What the inner loop does at cursor value `p`. */
  function Step(st: ScanState, annotations: map<int, Annotation>, p: int): Result<ScanState, EntryError>
  {
    if p !in annotations then Success(st)
    else
      var a := annotations[p];
      if |a.index| < 2 then Failure(IndexOutOfRange(p))
      else if IsMacro(a) then Success(ScanState(st.labels, Some(a.labelName)))
      else Success(ScanState(AddLabel(st.labels, a.labelName, a.text), st.macro))
  }

  /** The inner loop over the first `n` characters of a sentence that starts at cursor value `start`. */
  function Scan(annotations: map<int, Annotation>, start: int, n: nat): Result<ScanState, EntryError>
  {
    if n == 0 then Success(ScanState([], None))
    else match Scan(annotations, start, n - 1)
      case Success(st) => Step(st, annotations, start + n - 1)
      case Failure(e) => Failure(e)
  }

  // ---------------------------------------------------------------------
  // All sentences: the outer loop
  // ---------------------------------------------------------------------

  /** Where the cursor stands after the given items: one per character and one per line separator. */
  function Cursor(items: seq<(int, string)>): nat
  {
    if items == [] then 0 else Cursor(items[..|items| - 1]) + |items[|items| - 1].1| + 1
  }

  /** `('q' if not index % 2 else 'a') if 'ask' in file_name else '?'`. */
  function Scope(fileName: string, index: int): char
  {
    if Contains(fileName, "ask") then (if index % 2 == 0 then 'q' else 'a') else '?'
  }

  /** The record stored for one sentence. */
  function MakeRecord(fileName: string, index: int, sentence: string, st: ScanState): SentenceRecord
  {
    SentenceRecord(Replace(sentence, "¶ ", ""), st.labels, st.macro, Scope(fileName, index))
  }

  /** The data map after the outer loop, and the exception that stopped it if any. */
  datatype FillOutcome = FillOutcome(data: map<int, SentenceRecord>, error: Option<EntryError>)

  /** The outer loop over the given `(index, sentence)` items, starting from `data`. */
  function Fill(data: map<int, SentenceRecord>, fileName: string, annotations: map<int, Annotation>,
                items: seq<(int, string)>): FillOutcome
    decreases |items|
  {
    if items == [] then FillOutcome(data, None)
    else
      var n := |items| - 1;
      var prev := Fill(data, fileName, annotations, items[..n]);
      if prev.error.Some? then prev
      else
        var (index, sentence) := items[n];
        match Scan(annotations, Cursor(items[..n]), |sentence|)
        case Failure(e) => FillOutcome(prev.data, Some(e))
        case Success(st) => FillOutcome(prev.data[index := MakeRecord(fileName, index, sentence, st)], None)
  }

  /** Inserts an item before the first item with a key not smaller than its own. */
  function InsertItem(x: (int, string), sorted: seq<(int, string)>): seq<(int, string)>
  {
    if sorted == [] then [x]
    else if x.0 <= sorted[0].0 then [x] + sorted
    else [sorted[0]] + InsertItem(x, sorted[1..])
  }

  /** `sorted(text_lines.items())`: the items in increasing key order. */
  function SortItems(items: seq<(int, string)>): seq<(int, string)>
  {
    if items == [] then [] else InsertItem(items[0], SortItems(items[1..]))
  }

  /** `entry_to_data(entry, file_name, annotations, text_lines)` on the dict's items in insertion order. */
  function EntryToDataSpec(data: map<int, SentenceRecord>, fileName: string, annotations: map<int, Annotation>,
                           textLines: seq<(int, string)>): FillOutcome
  {
    Fill(data, fileName, annotations, SortItems(textLines))
  }

  /**
   * Fills `entry.data` in place. An annotation whose index holds fewer than
   * two integers raises `IndexError`, returned here as the error; the records
   * of the sentences before it stay written.
   */
  method EntryToData(entry: Entry, fileName: string, annotations: map<int, Annotation>, textLines: seq<(int, string)>)
    returns (error: Option<EntryError>)
    modifies entry
    ensures entry.data == EntryToDataSpec(old(entry.data), fileName, annotations, textLines).data
    ensures error == EntryToDataSpec(old(entry.data), fileName, annotations, textLines).error
  {
    ghost var data0 := entry.data;
    var items := SortItems(textLines);
    var position := 0;
    for n := 0 to |items|
      invariant position == Cursor(items[..n])
      invariant Fill(data0, fileName, annotations, items[..n]) == FillOutcome(entry.data, None)
    {
      assert items[..n + 1][..n] == items[..n];
      var (index, sentence) := items[n];
      var scanned := ScanSentence(annotations, position, |sentence|);
      if scanned.Failure? {
        error := Some(scanned.error);
        FillErrorSticks(data0, fileName, annotations, items, n + 1);
        return;
      }
      position := position + |sentence| + 1;
      var scope := if Contains(fileName, "ask") then (if index % 2 == 0 then 'q' else 'a') else '?';
      var ScanState(labels, macro) := scanned.value;
      entry.data := entry.data[index := SentenceRecord(Replace(sentence, "¶ ", ""), labels, macro, scope)];
    }
    assert items[..|items|] == items;
    error := None;
  }

  /**
   * The inner loop over the characters of one sentence, starting at cursor
   * value `start`; an annotation whose index has fewer than two integers
   * raises the `IndexError` that ends the whole conversion.
   */
  method ScanSentence(annotations: map<int, Annotation>, start: int, length: nat)
    returns (r: Result<ScanState, EntryError>)
    ensures r == Scan(annotations, start, length)
  {
    var position := start;
    var labels: seq<LabelEntry>, macro: Option<string> := [], None;
    for c := 0 to length
      invariant position == start + c
      invariant Scan(annotations, start, c) == Success(ScanState(labels, macro))
    {
      if position in annotations {
        var ann := annotations[position];
        if |ann.index| < 2 {
          ScanFailureSticks(annotations, start, c + 1, length);
          return Failure(IndexOutOfRange(position));
        }
        if ann.index[1] - ann.index[0] == 1 {
          macro := Some(ann.labelName);
        } else {
          labels := AddLabel(labels, ann.labelName, ann.text);
        }
      }
      position := position + 1;
    }
    return Success(ScanState(labels, macro));
  }

  lemma {:induction false} ScanFailureSticks(annotations: map<int, Annotation>, start: int, c: nat, n: nat)
    requires c <= n
    requires Scan(annotations, start, c).Failure?
    ensures Scan(annotations, start, n) == Scan(annotations, start, c)
    decreases n - c
  {
    if c < n {
      ScanFailureSticks(annotations, start, c, n - 1);
    }
  }

  lemma {:induction false} FillErrorSticks(data0: map<int, SentenceRecord>, fileName: string,
                                           annotations: map<int, Annotation>, items: seq<(int, string)>, n: nat)
    requires n <= |items|
    requires Fill(data0, fileName, annotations, items[..n]).error.Some?
    ensures Fill(data0, fileName, annotations, items) == Fill(data0, fileName, annotations, items[..n])
    decreases |items| - n
  {
    if n < |items| {
      var m := |items| - 1;
      assert items[..m][..n] == items[..n];
      FillErrorSticks(data0, fileName, annotations, items[..m], n);
    } else {
      assert items[..n] == items;
    }
  }

  // ---------------------------------------------------------------------
  // Sorting the items
  // ---------------------------------------------------------------------

  predicate SortedByKey(items: seq<(int, string)>)
  {
    forall i, j :: 0 <= i < j < |items| ==> items[i].0 <= items[j].0
  }

  /** A dict has each key once. */
  predicate DistinctKeys(items: seq<(int, string)>)
  {
    forall i, j :: 0 <= i < j < |items| ==> items[i].0 != items[j].0
  }

  lemma InsertItemSpec(x: (int, string), sorted: seq<(int, string)>)
    ensures multiset(InsertItem(x, sorted)) == multiset(sorted) + multiset{x}
    ensures SortedByKey(sorted) ==> SortedByKey(InsertItem(x, sorted))
  {
    InsertItemPermutes(x, sorted);
    if SortedByKey(sorted) {
      InsertItemSorted(x, sorted);
    }
  }

  lemma {:induction false} InsertItemPermutes(x: (int, string), sorted: seq<(int, string)>)
    ensures multiset(InsertItem(x, sorted)) == multiset(sorted) + multiset{x}
  {
    if sorted != [] && x.0 > sorted[0].0 {
      var rest := sorted[1..];
      InsertItemPermutes(x, rest);
      assert InsertItem(x, sorted) == [sorted[0]] + InsertItem(x, rest);
      assert multiset(InsertItem(x, sorted)) == multiset{sorted[0]} + multiset(InsertItem(x, rest));
      assert sorted == [sorted[0]] + rest;
      assert multiset(sorted) == multiset{sorted[0]} + multiset(rest);
    } else if sorted != [] {
      assert InsertItem(x, sorted) == [x] + sorted;
    }
  }

  lemma {:induction false} InsertItemSorted(x: (int, string), sorted: seq<(int, string)>)
    requires SortedByKey(sorted)
    ensures SortedByKey(InsertItem(x, sorted))
    ensures InsertItem(x, sorted)[0] == if sorted == [] || x.0 <= sorted[0].0 then x else sorted[0]
  {
    if sorted != [] && x.0 > sorted[0].0 {
      var rest := sorted[1..];
      assert SortedByKey(rest) by {
        forall i, j | 0 <= i < j < |rest| ensures rest[i].0 <= rest[j].0 {
          assert rest[i] == sorted[i + 1] && rest[j] == sorted[j + 1];
        }
      }
      InsertItemSorted(x, rest);
      var tail := InsertItem(x, rest);
      assert InsertItem(x, sorted) == [sorted[0]] + tail;
      assert sorted[0].0 <= tail[0].0;
    } else if sorted != [] {
      assert InsertItem(x, sorted) == [x] + sorted;
    }
  }

  /**
   * Sorting is a permutation of the items that puts their keys in
   * increasing order; the keys of a dict stay distinct, so the order is strict.
   */
  lemma {:induction false} SortItemsSpec(items: seq<(int, string)>)
    ensures multiset(SortItems(items)) == multiset(items)
    ensures SortedByKey(SortItems(items))
    ensures DistinctKeys(items) ==> DistinctKeys(SortItems(items))
  {
    SortItemsPermutes(items);
    if DistinctKeys(items) {
      PermutationKeepsDistinct(items, SortItems(items));
    }
  }

  lemma {:induction false} SortItemsPermutes(items: seq<(int, string)>)
    ensures multiset(SortItems(items)) == multiset(items)
    ensures SortedByKey(SortItems(items))
  {
    if items != [] {
      var rest := items[1..];
      SortItemsPermutes(rest);
      InsertItemSpec(items[0], SortItems(rest));
      assert items == [items[0]] + rest;
    }
  }

  /** A permutation of a dict's items still has each key once. */
  lemma PermutationKeepsDistinct(items: seq<(int, string)>, r: seq<(int, string)>)
    requires multiset(r) == multiset(items) && DistinctKeys(items)
    ensures DistinctKeys(r)
  {
    forall i, j | 0 <= i < j < |r| ensures r[i].0 != r[j].0 {
      assert r[i] in multiset(items) && r[j] in multiset(items);
      var a :| 0 <= a < |items| && items[a] == r[i];
      var b :| 0 <= b < |items| && items[b] == r[j];
      if a == b {
        MultisetTwice(r, i, j);
        MultisetOnce(items, a);
      }
    }
  }

  /** Two positions holding the same value count it twice. */
  lemma {:induction false} MultisetTwice(r: seq<(int, string)>, i: nat, j: nat)
    requires i < j < |r| && r[i] == r[j]
    ensures multiset(r)[r[i]] >= 2
  {
    assert r == r[..j] + [r[j]] + r[j + 1..];
    assert r[i] in r[..j];
    assert multiset(r[..j])[r[i]] >= 1;
  }

  /** In a dict's items each item occurs once. */
  lemma {:induction false} MultisetOnce(items: seq<(int, string)>, a: nat)
    requires a < |items| && DistinctKeys(items)
    ensures multiset(items)[items[a]] == 1
  {
    assert items == items[..a] + [items[a]] + items[a + 1..];
    assert items[a] !in items[..a] by {
      assert forall k :: 0 <= k < a ==> items[..a][k].0 != items[a].0;
    }
    assert items[a] !in items[a + 1..] by {
      var tail := items[a + 1..];
      forall k | 0 <= k < |tail| ensures tail[k] != items[a] {
        assert tail[k] == items[a + 1 + k];
      }
    }
  }

  /** Items already in increasing key order are left as they are. */
  lemma {:induction false} SortItemsSorted(items: seq<(int, string)>)
    requires forall i, j :: 0 <= i < j < |items| ==> items[i].0 < items[j].0
    ensures SortItems(items) == items
  {
    if items != [] {
      SortItemsSorted(items[1..]);
      if |items| > 1 {
        assert items[0].0 <= items[1..][0].0;
      }
      assert [items[0]] + items[1..] == items;
    }
  }

  // ---------------------------------------------------------------------
  // What the inner loop computes
  // ---------------------------------------------------------------------

  /** Whether the cursor value `p` lies inside the `n` characters from `start`. */
  predicate InRange(p: int, start: int, n: nat)
  {
    start <= p < start + n
  }

  /** The texts of the non-macro annotations with the given label, in increasing offset order. */
  function LabelTexts(annotations: map<int, Annotation>, start: int, n: nat, name: string): seq<Option<string>>
  {
    if n == 0 then []
    else
      var p := start + n - 1;
      LabelTexts(annotations, start, n - 1, name)
        + (if p in annotations && !IsMacro(annotations[p]) && annotations[p].labelName == name then [annotations[p].text] else [])
  }

  /** The inner loop fails exactly at the first annotation in range whose index has fewer than two integers. */
  lemma {:induction false} ScanFailure(annotations: map<int, Annotation>, start: int, n: nat)
    ensures Scan(annotations, start, n).Failure? <==>
      exists p :: InRange(p, start, n) && p in annotations && |annotations[p].index| < 2
    ensures Scan(annotations, start, n).Failure? ==>
      var p := Scan(annotations, start, n).error.position;
      && InRange(p, start, n) && p in annotations && |annotations[p].index| < 2
      && forall q :: start <= q < p && q in annotations ==> |annotations[q].index| >= 2
  {
    if n > 0 {
      ScanFailure(annotations, start, n - 1);
    }
  }

  /**
   * When the inner loop succeeds, the macro is the label of the last width-1
   * annotation in the sentence's range, and `None` when there is none.
   */
  lemma {:induction false} ScanMacro(annotations: map<int, Annotation>, start: int, n: nat)
    requires Scan(annotations, start, n).Success?
    ensures var macro := Scan(annotations, start, n).value.macro;
      && (macro.None? <==> forall p :: InRange(p, start, n) && p in annotations ==> !IsMacro(annotations[p]))
      && (macro.Some? ==>
            exists p :: (InRange(p, start, n) && p in annotations && IsMacro(annotations[p])
                         && annotations[p].labelName == macro.value
                         && forall q :: p < q < start + n && q in annotations ==> !IsMacro(annotations[q])))
  {
    if n > 0 {
      ScanMacro(annotations, start, n - 1);
    }
  }

  /**
   * When the inner loop succeeds, each label holds the texts of that label's
   * non-macro annotations in the range, in increasing offset order; the
   * labels are distinct, and a label is present exactly when it has a text.
   */
  lemma {:induction false} ScanLabels(annotations: map<int, Annotation>, start: int, n: nat)
    requires Scan(annotations, start, n).Success?
    ensures var labels := Scan(annotations, start, n).value.labels;
      && (forall name :: Lookup(labels, name) == LabelTexts(annotations, start, n, name))
      && Distinct(Names(labels))
      && (forall i :: 0 <= i < |labels| ==> labels[i].texts != [])
  {
    if n > 0 {
      ScanLabels(annotations, start, n - 1);
      var p := start + n - 1;
      var st := Scan(annotations, start, n - 1).value;
      if p in annotations && !IsMacro(annotations[p]) {
        var a := annotations[p];
        AddLabelEffect(st.labels, a.labelName, a.text);
        AddLabelTexts(st.labels, a.labelName, a.text);
      }
    }
  }

  lemma {:induction false} AddLabelTexts(labels: seq<LabelEntry>, name: string, text: Option<string>)
    requires forall i :: 0 <= i < |labels| ==> labels[i].texts != []
    ensures forall i :: 0 <= i < |AddLabel(labels, name, text)| ==> AddLabel(labels, name, text)[i].texts != []
  {
    if labels != [] && labels[0].name != name {
      AddLabelTexts(labels[1..], name, text);
      var r := AddLabel(labels, name, text);
      assert forall i :: 1 <= i < |r| ==> r[i] == AddLabel(labels[1..], name, text)[i - 1];
    }
  }

  /** A sentence with no annotation in its range gets no labels and no macro. */
  lemma {:induction false} ScanNothing(annotations: map<int, Annotation>, start: int, n: nat)
    requires forall p :: InRange(p, start, n) ==> p !in annotations
    ensures Scan(annotations, start, n) == Success(ScanState([], None))
  {
    if n > 0 {
      ScanNothing(annotations, start, n - 1);
    }
  }

  /** The inner loop only looks at the annotations in its own range. */
  lemma {:induction false} ScanLocal(a1: map<int, Annotation>, a2: map<int, Annotation>, start: int, n: nat)
    requires forall p :: InRange(p, start, n) ==> (p in a1 <==> p in a2) && (p in a1 ==> a1[p] == a2[p])
    ensures Scan(a1, start, n) == Scan(a2, start, n)
  {
    if n > 0 {
      ScanLocal(a1, a2, start, n - 1);
    }
  }

  /** The label of each non-macro annotation in range, one per annotation, in increasing offset order. */
  function NonMacroLabels(annotations: map<int, Annotation>, start: int, n: nat): seq<string>
  {
    if n == 0 then []
    else
      var p := start + n - 1;
      NonMacroLabels(annotations, start, n - 1)
        + (if p in annotations && !IsMacro(annotations[p]) then [annotations[p].labelName] else [])
  }

  /** The distinct elements of `xs`, each at the place of its first occurrence. */
  function FirstSeen(xs: seq<string>): seq<string>
  {
    if xs == [] then []
    else
      var seen, x := FirstSeen(xs[..|xs| - 1]), xs[|xs| - 1];
      if x in seen then seen else seen + [x]
  }

  lemma {:induction false} FirstSeenMembers(xs: seq<string>)
    ensures forall x :: x in FirstSeen(xs) <==> x in xs
  {
    if xs != [] {
      FirstSeenMembers(xs[..|xs| - 1]);
      assert xs == xs[..|xs| - 1] + [xs[|xs| - 1]];
    }
  }

  lemma {:induction false} FirstSeenDistinct(xs: seq<string>)
    ensures Distinct(FirstSeen(xs))
  {
    if xs != [] {
      FirstSeenDistinct(xs[..|xs| - 1]);
    }
  }

  lemma {:induction false} FirstSeenHead(xs: seq<string>)
    requires xs != []
    ensures FirstSeen(xs) != [] && FirstSeen(xs)[0] == xs[0]
  {
    var init := xs[..|xs| - 1];
    if init != [] {
      FirstSeenHead(init);
      assert init[0] == xs[0];
    }
  }

  /** Later elements never reorder the ones already seen: the result of every prefix is a prefix of the result. */
  lemma {:induction false} FirstSeenPrefix(xs: seq<string>, k: nat)
    requires k <= |xs|
    ensures FirstSeen(xs[..k]) <= FirstSeen(xs)
    decreases |xs| - k
  {
    if k < |xs| {
      FirstSeenPrefix(xs, k + 1);
      assert xs[..k + 1][..k] == xs[..k];
    } else {
      assert xs[..k] == xs;
    }
  }

  /**
   * The label names of a sentence are the labels of its non-macro
   * annotations, each once, in the order of its first annotation.
   */
  lemma {:induction false} ScanLabelOrder(annotations: map<int, Annotation>, start: int, n: nat)
    requires Scan(annotations, start, n).Success?
    ensures Names(Scan(annotations, start, n).value.labels) == FirstSeen(NonMacroLabels(annotations, start, n))
  {
    if n > 0 {
      ScanLabelOrder(annotations, start, n - 1);
      var p := start + n - 1;
      var st := Scan(annotations, start, n - 1).value;
      var before := NonMacroLabels(annotations, start, n - 1);
      if p in annotations && !IsMacro(annotations[p]) {
        var a := annotations[p];
        AddLabelNames(st.labels, a.labelName, a.text);
        var all := before + [a.labelName];
        assert all[..|all| - 1] == before;
      } else {
        assert before + [] == before;
        assert NonMacroLabels(annotations, start, n) == before;
        assert Scan(annotations, start, n).value.labels == st.labels;
      }
    }
  }

  /** The first non-macro label in range is the label of the lowest-offset non-macro annotation. */
  lemma {:induction false} NonMacroLabelsFirst(annotations: map<int, Annotation>, start: int, n: nat)
    ensures NonMacroLabels(annotations, start, n) == [] <==>
      forall p :: InRange(p, start, n) && p in annotations ==> IsMacro(annotations[p])
    ensures NonMacroLabels(annotations, start, n) != [] ==>
      exists p :: InRange(p, start, n) && p in annotations && !IsMacro(annotations[p])
        && annotations[p].labelName == NonMacroLabels(annotations, start, n)[0]
        && forall q :: start <= q < p && q in annotations ==> IsMacro(annotations[q])
  {
    if n > 0 {
      NonMacroLabelsFirst(annotations, start, n - 1);
      var before := NonMacroLabels(annotations, start, n - 1);
      var p := start + n - 1;
      if before != [] {
        assert NonMacroLabels(annotations, start, n)[0] == before[0];
      } else if p in annotations && !IsMacro(annotations[p]) {
        assert NonMacroLabels(annotations, start, n)[0] == annotations[p].labelName;
      }
    }
  }

  // ---------------------------------------------------------------------
  // What the outer loop computes
  // ---------------------------------------------------------------------

  /** Whether the cursor value `p` is inside the range of some sentence. */
  predicate Covered(items: seq<(int, string)>, p: int)
  {
    exists i :: 0 <= i < |items| && InRange(p, Cursor(items[..i]), |items[i].1|)
  }

  /**
   * The outer loop only looks at annotations inside the sentences' ranges:
   * two annotation maps that agree on every covered cursor value give the
   * same result.
   */
  lemma {:induction false} FillLocal(data0: map<int, SentenceRecord>, fileName: string,
                                     a1: map<int, Annotation>, a2: map<int, Annotation>, items: seq<(int, string)>)
    requires forall p :: Covered(items, p) ==> (p in a1 <==> p in a2) && (p in a1 ==> a1[p] == a2[p])
    ensures Fill(data0, fileName, a1, items) == Fill(data0, fileName, a2, items)
    decreases |items|
  {
    if items != [] {
      var n := |items| - 1;
      var prefix := items[..n];
      assert Fill(data0, fileName, a1, prefix) == Fill(data0, fileName, a2, prefix) by {
        forall p | Covered(prefix, p) ensures Covered(items, p) {
          var i :| 0 <= i < |prefix| && InRange(p, Cursor(prefix[..i]), |prefix[i].1|);
          assert prefix[..i] == items[..i];
        }
        FillLocal(data0, fileName, a1, a2, prefix);
      }
      var start := Cursor(prefix);
      assert Scan(a1, start, |items[n].1|) == Scan(a2, start, |items[n].1|) by {
        forall p | InRange(p, start, |items[n].1|) ensures Covered(items, p) {
          assert items[..n] == prefix;
        }
        ScanLocal(a1, a2, start, |items[n].1|);
      }
    }
  }

  /** Each sentence's range ends one before the next one starts. */
  lemma {:induction false} CursorStep(items: seq<(int, string)>, i: nat)
    requires i < |items|
    ensures Cursor(items[..i + 1]) == Cursor(items[..i]) + |items[i].1| + 1
  {
    assert items[..i + 1][..i] == items[..i];
  }

  lemma {:induction false} CursorMonotone(items: seq<(int, string)>, i: nat, j: nat)
    requires i <= j <= |items|
    ensures Cursor(items[..i]) + (j - i) <= Cursor(items[..j])
    decreases j - i
  {
    if i < j {
      CursorMonotone(items, i, j - 1);
      CursorStep(items, j - 1);
    }
  }

  /**
   * The cursor value right after sentence `i` (the removed separator) lies
   * in no sentence's range, so an annotation starting there is never applied.
   */
  lemma {:induction false} SeparatorNotCovered(items: seq<(int, string)>, i: nat)
    requires i < |items|
    ensures !Covered(items, Cursor(items[..i]) + |items[i].1|)
  {
    var sep := Cursor(items[..i]) + |items[i].1|;
    forall j | 0 <= j < |items| ensures !InRange(sep, Cursor(items[..j]), |items[j].1|) {
      if j < i {
        CursorStep(items, j);
        CursorMonotone(items, j + 1, i);
      } else if j > i {
        CursorStep(items, i);
        CursorMonotone(items, i + 1, j);
      }
    }
  }

  /** Adding or removing an annotation at a separator offset changes nothing. */
  lemma {:induction false} SeparatorAnnotationIgnored(data0: map<int, SentenceRecord>, fileName: string,
                                   annotations: map<int, Annotation>, items: seq<(int, string)>,
                                   i: nat, sep: int, a: Annotation)
    requires i < |items| && sep == Cursor(items[..i]) + |items[i].1|
    ensures Fill(data0, fileName, annotations[sep := a], items) == Fill(data0, fileName, annotations, items)
  {
    SeparatorNotCovered(items, i);
    var updated := annotations[sep := a];
    forall p | Covered(items, p)
      ensures (p in updated <==> p in annotations) && (p in updated ==> updated[p] == annotations[p])
    {
      assert p != sep;
    }
    FillLocal(data0, fileName, updated, annotations, items);
  }

  /** An error stops the outer loop for good, so a clean run was clean on every prefix. */
  lemma FillCleanPrefix(data0: map<int, SentenceRecord>, fileName: string,
                        annotations: map<int, Annotation>, items: seq<(int, string)>)
    requires items != [] && Fill(data0, fileName, annotations, items).error.None?
    ensures Fill(data0, fileName, annotations, items[..|items| - 1]).error.None?
    ensures Scan(annotations, Cursor(items[..|items| - 1]), |items[|items| - 1].1|).Success?
    ensures var n := |items| - 1;
      var st := Scan(annotations, Cursor(items[..n]), |items[n].1|).value;
      Fill(data0, fileName, annotations, items).data
        == Fill(data0, fileName, annotations, items[..n]).data[items[n].0 := MakeRecord(fileName, items[n].0, items[n].1, st)]
  {
  }

  /**
   * When no error stops it, the outer loop writes one key per sentence index
   * and leaves the value of every other key alone.
   */
  lemma {:induction false} FillKeys(data0: map<int, SentenceRecord>, fileName: string,
                                    annotations: map<int, Annotation>, items: seq<(int, string)>)
    requires Fill(data0, fileName, annotations, items).error.None?
    ensures var data := Fill(data0, fileName, annotations, items).data;
      && (forall k :: k in data <==> k in data0 || exists i :: 0 <= i < |items| && items[i].0 == k)
      && (forall k :: k in data0 && (forall i :: 0 <= i < |items| ==> items[i].0 != k) ==> data[k] == data0[k])
    decreases |items|
  {
    if items != [] {
      var n := |items| - 1;
      var prefix := items[..n];
      FillCleanPrefix(data0, fileName, annotations, items);
      FillKeys(data0, fileName, annotations, prefix);
      assert forall i :: 0 <= i < n ==> prefix[i] == items[i];
    }
  }

  /**
   * When no error stops it and the indices are distinct, the record of the
   * `i`-th item in order holds the sentence with `"¶ "` removed, the scope of
   * its index, and the labels and macro of its own range.
   */
  lemma {:induction false} FillRecords(data0: map<int, SentenceRecord>, fileName: string,
                                       annotations: map<int, Annotation>, items: seq<(int, string)>, i: nat)
    requires DistinctKeys(items) && i < |items|
    requires Fill(data0, fileName, annotations, items).error.None?
    ensures var st := Scan(annotations, Cursor(items[..i]), |items[i].1|);
      && st.Success?
      && items[i].0 in Fill(data0, fileName, annotations, items).data
      && Fill(data0, fileName, annotations, items).data[items[i].0]
           == SentenceRecord(Replace(items[i].1, "¶ ", ""), st.value.labels, st.value.macro, Scope(fileName, items[i].0))
    decreases |items|
  {
    var n := |items| - 1;
    var prefix := items[..n];
    FillCleanPrefix(data0, fileName, annotations, items);
    if i < n {
      assert DistinctKeys(prefix);
      FillRecords(data0, fileName, annotations, prefix, i);
      assert prefix[..i] == items[..i] && prefix[i] == items[i];
      assert items[i].0 != items[n].0;
    }
  }

  /** `scope` is `'q'` for even and `'a'` for odd indices of an "ask" file, and `'?'` otherwise. */
  lemma ScopeRule(fileName: string, index: int)
    ensures Scope(fileName, index) == 'q' <==> Contains(fileName, "ask") && index % 2 == 0
    ensures Scope(fileName, index) == 'a' <==> Contains(fileName, "ask") && index % 2 == 1
    ensures Scope(fileName, index) == '?' <==> !Contains(fileName, "ask")
  {
  }

  // ---------------------------------------------------------------------
  // The cursor and the `.txt` file
  // ---------------------------------------------------------------------

  /** The items of the text map `convert` builds, in insertion order. */
  function TextItems(txt: seq<string>): (items: seq<(int, string)>)
    ensures |items| == |KeptLines(txt)|
    ensures forall i :: 0 <= i < |items| ==> items[i] == (i, TextMap(txt)[i])
  {
    var kept := KeptLines(txt);
    seq(|kept|, i requires 0 <= i < |kept| => (i, kept[i]))
  }

  /** The text map `convert` builds is visited in its own insertion order. */
  lemma TextItemsSorted(txt: seq<string>)
    ensures SortItems(TextItems(txt)) == TextItems(txt)
    ensures DistinctKeys(TextItems(txt))
  {
    SortItemsSorted(TextItems(txt));
  }

  /** The number of characters of the first `i` lines of the file. */
  function FileOffset(txt: seq<string>, i: nat): nat
    requires i <= |txt|
  {
    if i == 0 then 0 else FileOffset(txt, i - 1) + |txt[i - 1]|
  }

  /**
   * When every line before line `i` ends in its only newline and none of
   * them is blank, the cursor on entering sentence `i` is the file offset of
   * line `i`, so brat's character offsets land in the right sentence. The
   * lines from `i` on may be anything.
   */
  lemma {:induction false} CursorIsFileOffset(txt: seq<string>, i: nat)
    requires i <= |txt|
    requires forall j :: 0 <= j < i ==> txt[j] != "\n" && txt[j] != [] && txt[j][|txt[j]| - 1] == '\n'
    requires forall j :: 0 <= j < i ==> '\n' !in txt[j][..|txt[j]| - 1]
    ensures i <= |TextItems(txt)|
    ensures Cursor(TextItems(txt)[..i]) == FileOffset(txt, i)
    ensures Cursor(TextItems(txt[..i])) == FileOffset(txt, i)
    decreases i
  {
    if i > 0 {
      CursorIsFileOffset(txt, i - 1);
      CursorLineStep(txt, i);
      LineBody(txt[i - 1]);
    }
    TextItemsPrefix(txt, i);
  }

  /** With no blank line before line `i`, the first `i` items come from the first `i` lines. */
  lemma TextItemsPrefix(txt: seq<string>, i: nat)
    requires i <= |txt|
    requires forall j :: 0 <= j < i ==> txt[j] != "\n"
    ensures i <= |TextItems(txt)|
    ensures TextItems(txt)[..i] == TextItems(txt[..i])
  {
    var p := txt[..i];
    KeptLinesAll(p);
    assert p + txt[i..] == txt;
    KeptLinesAppend(p, txt[i..]);
    forall m | 0 <= m < i ensures TextItems(txt)[m] == TextItems(p)[m] {
      assert KeptLines(txt)[m] == KeptLines(p)[m];
    }
  }

  /** A line ending in its only newline keeps one character less in the text map. */
  lemma LineBody(line: string)
    requires line != [] && line[|line| - 1] == '\n' && '\n' !in line[..|line| - 1]
    ensures |Without(line, '\n')| + 1 == |line|
  {
    var body := line[..|line| - 1];
    assert line == body + "\n";
    WithoutAppend(body, "\n", '\n');
    ReplaceCharByNothing(body, '\n');
    assert Without("\n", '\n') == "";
  }

  /** The number of lone `"\n"` lines in `txt`. */
  function BlankLines(txt: seq<string>): nat
  {
    if txt == [] then 0 else BlankLines(txt[..|txt| - 1]) + (if txt[|txt| - 1] == "\n" then 1 else 0)
  }

  /**
   * When every line of the file ends in its only newline, the cursor after
   * the sentences of the first `k` lines falls short of those lines' file
   * offset by exactly the number of blank lines among them: every blank line
   * shifts all later sentences one character against brat's offsets.
   */
  lemma {:induction false} CursorLagsBlankLines(txt: seq<string>, k: nat)
    requires forall j :: 0 <= j < |txt| ==> txt[j] != [] && txt[j][|txt[j]| - 1] == '\n'
    requires forall j :: 0 <= j < |txt| ==> '\n' !in txt[j][..|txt[j]| - 1]
    requires k <= |txt|
    ensures Cursor(TextItems(txt[..k])) + BlankLines(txt[..k]) == FileOffset(txt, k)
    decreases k
  {
    if k > 0 {
      CursorLagsBlankLines(txt, k - 1);
      CursorLineStep(txt, k);
      assert txt[..k][..k - 1] == txt[..k - 1];
      if txt[k - 1] != "\n" {
        LineBody(txt[k - 1]);
      }
    }
  }

  /** One more line of the file moves the cursor past its sentence and separator, or not at all when it is blank. */
  lemma CursorLineStep(txt: seq<string>, k: nat)
    requires 0 < k <= |txt|
    ensures Cursor(TextItems(txt[..k])) ==
      Cursor(TextItems(txt[..k - 1])) + (if txt[k - 1] == "\n" then 0 else |Without(txt[k - 1], '\n')| + 1)
  {
    var prefix, line := txt[..k - 1], txt[k - 1];
    assert txt[..k][..k - 1] == prefix && txt[..k][k - 1] == line;
    KeptLinesStep(txt[..k], k - 1);
    assert txt[..k][..k] == txt[..k];
    if line == "\n" {
      assert KeptLines(txt[..k]) == KeptLines(prefix) + [];
      assert TextItems(txt[..k]) == TextItems(prefix);
    } else {
      var items := TextItems(txt[..k]);
      assert items[..|items| - 1] == TextItems(prefix);
    }
  }

  /**
   * A blank line is dropped from the text map but not counted by the cursor:
   * after `"\n"`, the line `"ab\n"` starts at file offset 1 while the cursor
   * enters it at 0.
   */
  lemma BlankLineShiftsCursor()
    ensures var txt := ["\n", "ab\n"];
      && TextItems(txt) == [(0, "ab")]
      && FileOffset(txt, 1) == 1
      && Cursor(TextItems(txt)[..0]) == 0
  {
    var txt := ["\n", "ab\n"];
    assert txt[1..] == ["ab\n"];
    assert Replace("ab\n", "\n", "") == "ab" by {
      ReplaceCharByNothing("ab\n", '\n');
      assert "ab\n" == "ab" + "\n";
      WithoutAppend("ab", "\n", '\n');
      ReplaceCharByNothing("ab", '\n');
    }
    assert KeptLines(txt) == ["ab"];
  }
}
