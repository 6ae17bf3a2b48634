/**
 * Anonymising the recogniser's responses (`process_merge` in
 * src/twitIE_amica.py). For each batch, in order, a replacement list is built
 * from the Location, Person, URL and UserID spans, in that order, each
 * recording `raw -> placeholder` in one map shared by all batches; the
 * replacements are then applied one after another to the whole batch text,
 * which is finally split on the HTML-escaped batch delimiter.
 */
module TwitieMerge {
  import opened PyStr
  import opened TwitieEntities

  /** One stored response: `(text, url_list, usrid_list, person_list, location_list)`. */
  datatype Batch = Batch(text: string, lists: EntityLists)

  /** One `(raw, replace_with)` tuple of `total_replace`. */
  datatype Replacement = Replacement(raw: string, placeholder: string)

  /** The delimiter the sentences of a batch are joined with before they are sent. */
  const Delimiter := " <--> "

  /** The same delimiter as it comes back in the service's HTML-escaped text. */
  const EscapedDelimiter := " &lt;--&gt; "

  const UnknownLocationTypes: set<AttrValue> := {Str("na"), Str("pre"), Str("post"), Str("unknown"), Null}
  const UnknownGenders: set<AttrValue> := {Str("na"), Str("None"), Null}
  const UrlPlaceholder := "<URL>"
  const UserIdPlaceholder := "<USER_ID>"

  function LocationPlaceholder(typ: AttrValue): string
  {
    if typ in UnknownLocationTypes then "<LOCATION_unknown>" else "<LOCATION_" + typ.s + ">"
  }

  function PersonPlaceholder(gender: AttrValue): string
  {
    if gender in UnknownGenders then "<PERSON_gender_unknown>" else "<PERSON_" + gender.s + ">"
  }

  /** UserID matches that are never replaced. */
  predicate IsShortToken(raw: string)
  {
    raw == "i" || raw == "t"
  }

  function LocationReplacements(text: string, locs: seq<AttrSpan>): seq<Replacement>
    decreases |locs|
  {
    if locs == [] then []
    else
      var l := locs[|locs| - 1];
      LocationReplacements(text, locs[..|locs| - 1]) + [Replacement(Slice(text, l.start, l.end), LocationPlaceholder(l.attr))]
  }

  function PersonReplacements(text: string, persons: seq<AttrSpan>): seq<Replacement>
    decreases |persons|
  {
    if persons == [] then []
    else
      var p := persons[|persons| - 1];
      PersonReplacements(text, persons[..|persons| - 1]) + [Replacement(Slice(text, p.start, p.end), PersonPlaceholder(p.attr))]
  }

  function UrlReplacements(text: string, urls: seq<Span>): seq<Replacement>
    decreases |urls|
  {
    if urls == [] then []
    else
      var u := urls[|urls| - 1];
      UrlReplacements(text, urls[..|urls| - 1]) + [Replacement(Slice(text, u.start, u.end), UrlPlaceholder)]
  }

  function UserIdReplacements(text: string, ids: seq<Span>): seq<Replacement>
    decreases |ids|
  {
    if ids == [] then []
    else
      var u := ids[|ids| - 1];
      var raw := Slice(text, u.start, u.end);
      UserIdReplacements(text, ids[..|ids| - 1]) + (if IsShortToken(raw) then [] else [Replacement(raw, UserIdPlaceholder)])
  }

  /** `total_replace` of one batch. */
  function Replacements(b: Batch): seq<Replacement>
  {
    LocationReplacements(b.text, b.lists.locations)
      + PersonReplacements(b.text, b.lists.persons)
      + UrlReplacements(b.text, b.lists.urls)
      + UserIdReplacements(b.text, b.lists.userIds)
  }

  /** The map after `hash_dict[raw] = replace_with` for each replacement in order. */
  function Record(m: map<string, string>, rs: seq<Replacement>): map<string, string>
    decreases |rs|
  {
    if rs == [] then m
    else
      var r := rs[|rs| - 1];
      Record(m, rs[..|rs| - 1])[r.raw := r.placeholder]
  }

  /** The text after `text = text.replace(raw, replace_with)` for each replacement in order. */
  function ApplyAll(text: string, rs: seq<Replacement>): string
    decreases |rs|
  {
    if rs == [] then text
    else
      var r := rs[|rs| - 1];
      Replace(ApplyAll(text, rs[..|rs| - 1]), r.raw, r.placeholder)
  }

  /** The anonymised sentences of one batch. */
  function BatchSentences(b: Batch): seq<string>
  {
    Split(ApplyAll(b.text, Replacements(b)), EscapedDelimiter)
  }

  /** `new_sent_list` after the given batches. */
  function MergedSentences(batches: seq<Batch>): seq<string>
    decreases |batches|
  {
    if batches == [] then []
    else MergedSentences(batches[..|batches| - 1]) + BatchSentences(batches[|batches| - 1])
  }

  /** `hash_dict` after the given batches. */
  function MergedHash(batches: seq<Batch>): map<string, string>
    decreases |batches|
  {
    if batches == [] then map[]
    else Record(MergedHash(batches[..|batches| - 1]), Replacements(batches[|batches| - 1]))
  }

  method ProcessMerge(batches: seq<Batch>) returns (newSentList: seq<string>, hashDict: map<string, string>)
    ensures newSentList == MergedSentences(batches)
    ensures hashDict == MergedHash(batches)
  {
    newSentList, hashDict := [], map[];
    for k := 0 to |batches|
      invariant newSentList == MergedSentences(batches[..k])
      invariant hashDict == MergedHash(batches[..k])
    {
      assert batches[..k + 1][..k] == batches[..k];
      var v := batches[k];
      var totalReplace;
      totalReplace, hashDict := CollectReplacements(v, hashDict);

      var newSentences := ApplyReplacements(v.text, totalReplace);
      newSentList := newSentList + Split(newSentences, EscapedDelimiter);
      assert newSentList == MergedSentences(batches[..k + 1]) by {
        assert batches[..k + 1][k] == v;
      }
    }
    assert batches[..|batches|] == batches;
  }

  /** `text.replace(raw, replace_with)` for each replacement, in list order. */
  method ApplyReplacements(text: string, totalReplace: seq<Replacement>) returns (newSentences: string)
    ensures newSentences == ApplyAll(text, totalReplace)
  {
    newSentences := text;
    for t := 0 to |totalReplace|
      invariant newSentences == ApplyAll(text, totalReplace[..t])
    {
      assert totalReplace[..t + 1][..t] == totalReplace[..t];
      newSentences := Replace(newSentences, totalReplace[t].raw, totalReplace[t].placeholder);
    }
    assert totalReplace[..|totalReplace|] == totalReplace;
  }

  /**
   * The four category loops of one batch, in the order the source runs them:
   * locations, persons, URLs, then UserIDs.
   */
  method CollectReplacements(v: Batch, hash0: map<string, string>)
    returns (totalReplace: seq<Replacement>, hashDict: map<string, string>)
    ensures totalReplace == Replacements(v)
    ensures hashDict == Record(hash0, totalReplace)
  {
    var text := v.text;
    var locs, persons, urls, ids;
    locs, hashDict := AddLocations(text, v.lists.locations, hash0);
    persons, hashDict := AddPersons(text, v.lists.persons, hashDict);
    urls, hashDict := AddUrls(text, v.lists.urls, hashDict);
    ids, hashDict := AddUserIds(text, v.lists.userIds, hashDict);
    totalReplace := locs + persons + urls + ids;
    RecordAppend(hash0, locs, persons);
    RecordAppend(hash0, locs + persons, urls);
    RecordAppend(hash0, locs + persons + urls, ids);
  }

  /** The location loop: each span is recorded as its location placeholder. */
  method AddLocations(text: string, locationList: seq<AttrSpan>, hash0: map<string, string>)
    returns (added: seq<Replacement>, hashDict: map<string, string>)
    ensures added == LocationReplacements(text, locationList)
    ensures hashDict == Record(hash0, added)
  {
    added, hashDict := [], hash0;
    for i := 0 to |locationList|
      invariant added == LocationReplacements(text, locationList[..i])
      invariant hashDict == Record(hash0, added)
    {
      assert locationList[..i + 1][..i] == locationList[..i];
      var s, e, typ := locationList[i].start, locationList[i].end, locationList[i].attr;
      var replaceWith := LocationPlaceholder(typ);
      var raw := Slice(text, s, e);
      hashDict := hashDict[raw := replaceWith];
      RecordSnoc(hash0, added, Replacement(raw, replaceWith));
      added := added + [Replacement(raw, replaceWith)];
    }
    assert locationList[..|locationList|] == locationList;
  }

  /** The person loop: each span is recorded as its gender placeholder. */
  method AddPersons(text: string, personList: seq<AttrSpan>, hash0: map<string, string>)
    returns (added: seq<Replacement>, hashDict: map<string, string>)
    ensures added == PersonReplacements(text, personList)
    ensures hashDict == Record(hash0, added)
  {
    added, hashDict := [], hash0;
    for i := 0 to |personList|
      invariant added == PersonReplacements(text, personList[..i])
      invariant hashDict == Record(hash0, added)
    {
      assert personList[..i + 1][..i] == personList[..i];
      var s, e, gender := personList[i].start, personList[i].end, personList[i].attr;
      var replaceWith := PersonPlaceholder(gender);
      var raw := Slice(text, s, e);
      hashDict := hashDict[raw := replaceWith];
      RecordSnoc(hash0, added, Replacement(raw, replaceWith));
      added := added + [Replacement(raw, replaceWith)];
    }
    assert personList[..|personList|] == personList;
  }

  /** The URL loop: each span is recorded as `<URL>`. */
  method AddUrls(text: string, urlList: seq<Span>, hash0: map<string, string>)
    returns (added: seq<Replacement>, hashDict: map<string, string>)
    ensures added == UrlReplacements(text, urlList)
    ensures hashDict == Record(hash0, added)
  {
    added, hashDict := [], hash0;
    for i := 0 to |urlList|
      invariant added == UrlReplacements(text, urlList[..i])
      invariant hashDict == Record(hash0, added)
    {
      assert urlList[..i + 1][..i] == urlList[..i];
      var raw := Slice(text, urlList[i].start, urlList[i].end);
      var replaceWith := UrlPlaceholder;
      hashDict := hashDict[raw := replaceWith];
      RecordSnoc(hash0, added, Replacement(raw, replaceWith));
      added := added + [Replacement(raw, replaceWith)];
    }
    assert urlList[..|urlList|] == urlList;
  }

  /** The UserID loop: each span other than `"i"` and `"t"` is recorded as `<USER_ID>`. */
  method AddUserIds(text: string, usridList: seq<Span>, hash0: map<string, string>)
    returns (added: seq<Replacement>, hashDict: map<string, string>)
    ensures added == UserIdReplacements(text, usridList)
    ensures hashDict == Record(hash0, added)
  {
    added, hashDict := [], hash0;
    for j := 0 to |usridList|
      invariant added == UserIdReplacements(text, usridList[..j])
      invariant hashDict == Record(hash0, added)
    {
      assert usridList[..j + 1][..j] == usridList[..j];
      var raw := Slice(text, usridList[j].start, usridList[j].end);
      if raw != "i" && raw != "t" {
        var replaceWith := UserIdPlaceholder;
        hashDict := hashDict[raw := replaceWith];
        RecordSnoc(hash0, added, Replacement(raw, replaceWith));
        added := added + [Replacement(raw, replaceWith)];
      }
    }
    assert usridList[..|usridList|] == usridList;
  }

  lemma RecordSnoc(m: map<string, string>, rs: seq<Replacement>, r: Replacement)
    ensures Record(m, rs + [r]) == Record(m, rs)[r.raw := r.placeholder]
  {
    assert (rs + [r])[..|rs|] == rs;
  }

  // ---------------------------------------------------------------------
  // Placeholders
  // ---------------------------------------------------------------------

  /**
   * A location gets `<LOCATION_unknown>` exactly when its type is `'na'`,
   * `'pre'`, `'post'`, `'unknown'` or `None`; otherwise the placeholder
   * carries the type, so two different known types never share one.
   */
  lemma LocationPlaceholderRule(typ: AttrValue, other: AttrValue)
    ensures LocationPlaceholder(typ) == "<LOCATION_unknown>" <==> typ in UnknownLocationTypes
    ensures typ !in UnknownLocationTypes ==> LocationPlaceholder(typ) == "<LOCATION_" + typ.s + ">"
    ensures (typ !in UnknownLocationTypes && other !in UnknownLocationTypes
      && LocationPlaceholder(typ) == LocationPlaceholder(other)) ==> typ == other
  {
    if typ !in UnknownLocationTypes {
      assert typ.s != "unknown";
      assert "<LOCATION_unknown>" == "<LOCATION_" + "unknown" + ">";
      WrapInjective("<LOCATION_", typ.s, "unknown");
      if other !in UnknownLocationTypes {
        WrapInjective("<LOCATION_", typ.s, other.s);
      }
    }
  }

  /**
   * A person gets `<PERSON_gender_unknown>` when the gender is `'na'`,
   * `'None'` or `None` — and also, through the string concatenation, when the
   * gender is the string `'gender_unknown'`. Known genders never share a placeholder.
   */
  lemma PersonPlaceholderRule(gender: AttrValue, other: AttrValue)
    ensures PersonPlaceholder(gender) == "<PERSON_gender_unknown>"
      <==> gender in UnknownGenders || gender == Str("gender_unknown")
    ensures gender !in UnknownGenders ==> PersonPlaceholder(gender) == "<PERSON_" + gender.s + ">"
    ensures (gender !in UnknownGenders && other !in UnknownGenders
      && PersonPlaceholder(gender) == PersonPlaceholder(other)) ==> gender == other
  {
    if gender !in UnknownGenders {
      assert "<PERSON_gender_unknown>" == "<PERSON_" + "gender_unknown" + ">";
      WrapInjective("<PERSON_", gender.s, "gender_unknown");
      if other !in UnknownGenders {
        WrapInjective("<PERSON_", gender.s, other.s);
      }
    }
  }

  /** A placeholder `prefix + value + ">"` determines its value. */
  lemma WrapInjective(prefix: string, a: string, b: string)
    ensures prefix + a + ">" == prefix + b + ">" <==> a == b
  {
    if prefix + a + ">" == prefix + b + ">" {
      assert (prefix + a + ">")[|prefix|..|prefix| + |a|] == a;
      assert (prefix + b + ">")[|prefix|..|prefix| + |b|] == b;
    }
  }

  // ---------------------------------------------------------------------
  // The replacement list
  // ---------------------------------------------------------------------

  lemma {:induction false} UserIdReplacementsFilter(text: string, ids: seq<Span>)
    ensures forall r :: r in UserIdReplacements(text, ids) ==> r.placeholder == UserIdPlaceholder && !IsShortToken(r.raw)
    ensures forall i :: 0 <= i < |ids| && !IsShortToken(Slice(text, ids[i].start, ids[i].end)) ==>
      Replacement(Slice(text, ids[i].start, ids[i].end), UserIdPlaceholder) in UserIdReplacements(text, ids)
    decreases |ids|
  {
    if ids != [] {
      var ids' := ids[..|ids| - 1];
      UserIdReplacementsFilter(text, ids');
      assert forall i :: 0 <= i < |ids'| ==> ids'[i] == ids[i];
    }
  }

  /**
   * A UserID span whose text is `"i"` or `"t"` yields no replacement; every
   * other UserID span yields `raw -> <USER_ID>`.
   */
  lemma UserIdRule(b: Batch)
    ensures forall r :: r in UserIdReplacements(b.text, b.lists.userIds) ==>
      r.placeholder == UserIdPlaceholder && !IsShortToken(r.raw)
    ensures forall u :: u in b.lists.userIds && !IsShortToken(Slice(b.text, u.start, u.end)) ==>
      Replacement(Slice(b.text, u.start, u.end), UserIdPlaceholder) in Replacements(b)
  {
    UserIdReplacementsFilter(b.text, b.lists.userIds);
  }

  predicate HasPrefix(s: string, prefix: string)
  {
    |prefix| <= |s| && s[..|prefix|] == prefix
  }

  lemma PlaceholdersOf(text: string, locs: seq<AttrSpan>, persons: seq<AttrSpan>, urls: seq<Span>)
    ensures forall r :: r in LocationReplacements(text, locs) ==> HasPrefix(r.placeholder, "<LOCATION_")
    ensures forall r :: r in PersonReplacements(text, persons) ==> HasPrefix(r.placeholder, "<PERSON_")
    ensures forall r :: r in UrlReplacements(text, urls) ==> r.placeholder == UrlPlaceholder
  {
    LocationPlaceholders(text, locs);
    PersonPlaceholders(text, persons);
    UrlPlaceholders(text, urls);
  }

  lemma {:induction false} LocationPlaceholders(text: string, locs: seq<AttrSpan>)
    ensures forall r :: r in LocationReplacements(text, locs) ==> HasPrefix(r.placeholder, "<LOCATION_")
    decreases |locs|
  {
    if locs != [] {
      var l := locs[|locs| - 1];
      LocationPlaceholders(text, locs[..|locs| - 1]);
      assert HasPrefix(LocationPlaceholder(l.attr), "<LOCATION_");
    }
  }

  lemma {:induction false} PersonPlaceholders(text: string, persons: seq<AttrSpan>)
    ensures forall r :: r in PersonReplacements(text, persons) ==> HasPrefix(r.placeholder, "<PERSON_")
    decreases |persons|
  {
    if persons != [] {
      var p := persons[|persons| - 1];
      PersonPlaceholders(text, persons[..|persons| - 1]);
      assert HasPrefix(PersonPlaceholder(p.attr), "<PERSON_");
    }
  }

  lemma {:induction false} UrlPlaceholders(text: string, urls: seq<Span>)
    ensures forall r :: r in UrlReplacements(text, urls) ==> r.placeholder == UrlPlaceholder
    decreases |urls|
  {
    if urls != [] {
      UrlPlaceholders(text, urls[..|urls| - 1]);
    }
  }

  /** In a batch's replacement list, `"i"` and `"t"` are never mapped to `<USER_ID>`. */
  lemma ShortTokensNotUserIdInBatch(b: Batch)
    ensures forall r :: r in Replacements(b) && IsShortToken(r.raw) ==> r.placeholder != UserIdPlaceholder
  {
    var locs, pers := LocationReplacements(b.text, b.lists.locations), PersonReplacements(b.text, b.lists.persons);
    var urls, ids := UrlReplacements(b.text, b.lists.urls), UserIdReplacements(b.text, b.lists.userIds);
    assert NoShortUserId(locs) && NoShortUserId(pers) && NoShortUserId(urls) by {
      PlaceholdersOf(b.text, b.lists.locations, b.lists.persons, b.lists.urls);
      forall r | r in locs ensures r.placeholder != UserIdPlaceholder {
        PrefixNotUserId(r.placeholder, "<LOCATION_");
      }
      forall r | r in pers ensures r.placeholder != UserIdPlaceholder {
        PrefixNotUserId(r.placeholder, "<PERSON_");
      }
    }
    assert NoShortUserId(ids) by {
      UserIdReplacementsFilter(b.text, b.lists.userIds);
    }
    forall r | r in Replacements(b) && IsShortToken(r.raw) ensures r.placeholder != UserIdPlaceholder {
      assert r in locs || r in pers || r in urls || r in ids by {
        assert Replacements(b) == locs + pers + urls + ids;
      }
    }
  }

  predicate NoShortUserId(rs: seq<Replacement>)
  {
    forall r :: r in rs && IsShortToken(r.raw) ==> r.placeholder != UserIdPlaceholder
  }

  /** A placeholder that starts like a location or person one is not the user id one. */
  lemma PrefixNotUserId(s: string, prefix: string)
    requires HasPrefix(s, prefix) && |prefix| >= 2 && prefix[1] != 'U'
    ensures s != UserIdPlaceholder
  {
    assert s[1] == prefix[1];
  }

  // ---------------------------------------------------------------------
  // The shared map: last write wins
  // ---------------------------------------------------------------------

  /**
   * After recording `rs`, a key is present exactly when it was present before
   * or is the raw text of some replacement, and it holds the placeholder of
   * the last replacement with that raw text.
   */
  lemma {:induction false} RecordLastWrite(m: map<string, string>, rs: seq<Replacement>, key: string)
    ensures key in Record(m, rs) <==> key in m || exists i :: 0 <= i < |rs| && rs[i].raw == key
    ensures forall i :: 0 <= i < |rs| && rs[i].raw == key && (forall j :: i < j < |rs| ==> rs[j].raw != key) ==>
      Record(m, rs)[key] == rs[i].placeholder
    ensures key in m && (forall i :: 0 <= i < |rs| ==> rs[i].raw != key) ==> Record(m, rs)[key] == m[key]
    decreases |rs|
  {
    if rs != [] {
      var rs' := rs[..|rs| - 1];
      RecordLastWrite(m, rs', key);
      assert forall i :: 0 <= i < |rs'| ==> rs'[i] == rs[i];
      if i :| 0 <= i < |rs| && rs[i].raw == key && i < |rs| - 1 {
        assert rs'[i].raw == key;
      }
    }
  }

  /** All replacements of all batches, in the order they are recorded. */
  function AllReplacements(batches: seq<Batch>): seq<Replacement>
    decreases |batches|
  {
    if batches == [] then [] else AllReplacements(batches[..|batches| - 1]) + Replacements(batches[|batches| - 1])
  }

  lemma {:induction false} RecordAppend(m: map<string, string>, a: seq<Replacement>, b: seq<Replacement>)
    ensures Record(m, a + b) == Record(Record(m, a), b)
    decreases |b|
  {
    if b == [] {
      assert a + b == a;
    } else {
      assert (a + b)[..|a + b| - 1] == a + b[..|b| - 1];
      RecordAppend(m, a, b[..|b| - 1]);
    }
  }

  lemma {:induction false} MergedHashIsRecord(batches: seq<Batch>)
    ensures MergedHash(batches) == Record(map[], AllReplacements(batches))
    decreases |batches|
  {
    if batches != [] {
      var prefix := batches[..|batches| - 1];
      MergedHashIsRecord(prefix);
      RecordAppend(map[], AllReplacements(prefix), Replacements(batches[|batches| - 1]));
    }
  }

  /**
   * The final map holds a key exactly when some replacement, in any batch,
   * has it as raw text, and the value is the placeholder written last in
   * batch-then-category order.
   */
  lemma MergedHashLastWrite(batches: seq<Batch>, key: string)
    ensures var all := AllReplacements(batches);
      && (key in MergedHash(batches) <==> exists i :: 0 <= i < |all| && all[i].raw == key)
      && forall i :: 0 <= i < |all| && all[i].raw == key && (forall j :: i < j < |all| ==> all[j].raw != key) ==>
        MergedHash(batches)[key] == all[i].placeholder
  {
    MergedHashIsRecord(batches);
    RecordLastWrite(map[], AllReplacements(batches), key);
  }

  lemma {:induction false} AllReplacementsShortTokens(batches: seq<Batch>)
    ensures forall r :: r in AllReplacements(batches) && IsShortToken(r.raw) ==> r.placeholder != UserIdPlaceholder
    decreases |batches|
  {
    if batches != [] {
      AllReplacementsShortTokens(batches[..|batches| - 1]);
      ShortTokensNotUserIdInBatch(batches[|batches| - 1]);
    }
  }

  /** `"i"` and `"t"` are never recorded as `<USER_ID>`, whatever else they may be recorded as. */
  lemma ShortTokensNeverUserId(batches: seq<Batch>, key: string)
    requires IsShortToken(key)
    ensures key in MergedHash(batches) ==> MergedHash(batches)[key] != UserIdPlaceholder
  {
    var all := AllReplacements(batches);
    MergedHashLastWrite(batches, key);
    AllReplacementsShortTokens(batches);
    if key in MergedHash(batches) {
      var i :| 0 <= i < |all| && all[i].raw == key;
      var last := LastIndexOfExists(all, key, i);
      assert all[last] in all;
    }
  }

  /** The last position holding `key` as raw text, at or after `i`. */
  lemma {:induction false} LastIndexOfExists(rs: seq<Replacement>, key: string, i: nat) returns (last: nat)
    requires i < |rs| && rs[i].raw == key
    ensures i <= last < |rs| && rs[last].raw == key
    ensures forall j :: last < j < |rs| ==> rs[j].raw != key
    decreases |rs| - i
  {
    if j :| i < j < |rs| && rs[j].raw == key {
      last := LastIndexOfExists(rs, key, j);
    } else {
      last := i;
    }
  }

  // ---------------------------------------------------------------------
  // The rewritten text and its split
  // ---------------------------------------------------------------------

  /**
   * A batch whose replacement list is empty (no entities, or only UserID
   * matches `"i"`/`"t"`) yields the split of its raw text.
   */
  lemma NoReplacementsIsSplit(b: Batch)
    requires b.lists.locations == [] && b.lists.persons == [] && b.lists.urls == []
    requires forall i :: 0 <= i < |b.lists.userIds| ==>
      IsShortToken(Slice(b.text, b.lists.userIds[i].start, b.lists.userIds[i].end))
    ensures BatchSentences(b) == Split(b.text, EscapedDelimiter)
  {
    NoShortTokenReplacements(b.text, b.lists.userIds);
    assert Replacements(b) == [];
  }

  lemma {:induction false} NoShortTokenReplacements(text: string, ids: seq<Span>)
    requires forall i :: 0 <= i < |ids| ==> IsShortToken(Slice(text, ids[i].start, ids[i].end))
    ensures UserIdReplacements(text, ids) == []
    decreases |ids|
  {
    if ids != [] {
      NoShortTokenReplacements(text, ids[..|ids| - 1]);
    }
  }

  /** Joining a batch's output sentences with the escaped delimiter gives back the rewritten text. */
  lemma BatchSentencesRejoin(b: Batch)
    ensures |BatchSentences(b)| >= 1
    ensures Join(BatchSentences(b), EscapedDelimiter) == ApplyAll(b.text, Replacements(b))
  {
    SplitJoinRoundTrip(ApplyAll(b.text, Replacements(b)), EscapedDelimiter);
  }

  /**
   * The merged list is the batches' sentence lists one after another, so a
   * batch contributes exactly its own sentences, in batch order.
   */
  lemma {:induction false} MergedSentencesAppend(a: seq<Batch>, b: seq<Batch>)
    ensures MergedSentences(a + b) == MergedSentences(a) + MergedSentences(b)
    decreases |b|
  {
    if b == [] {
      assert a + b == a;
    } else {
      assert (a + b)[..|a + b| - 1] == a + b[..|b| - 1];
      MergedSentencesAppend(a, b[..|b| - 1]);
    }
  }

  /**
   * The split relies on the service escaping `<` and `>`: a batch joined with
   * the plain delimiter and returned unescaped, with no `&` in its sentences,
   * is not split at all; returned with escaped delimiters, it splits back into
   * its sentences.
   */
  lemma DelimiterEscaping(sentences: seq<string>)
    requires |sentences| >= 1
    requires forall i :: 0 <= i < |sentences| ==> '&' !in sentences[i]
    ensures Split(Join(sentences, Delimiter), EscapedDelimiter) == [Join(sentences, Delimiter)]
    ensures Split(Join(sentences, EscapedDelimiter), EscapedDelimiter) == sentences
  {
    var joined := Join(sentences, Delimiter);
    JoinChars(sentences, Delimiter, c => c != '&');
    assert '&' !in joined;
    assert '&' in EscapedDelimiter by {
      assert EscapedDelimiter[1] == '&';
    }
    NotContainsForeignChar(joined, EscapedDelimiter, '&');
    SplitAbsent(joined, EscapedDelimiter);
    assert Anchored(sentences, EscapedDelimiter, 1);
    JoinSplitRoundTrip(sentences, EscapedDelimiter, 1);
  }
}
