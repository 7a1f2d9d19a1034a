/**
 * The entry store: named records, each holding per-date mood/note
 * annotations, and `addEntry`, which validates a name and either adds a
 * date to the record of that name (found case-insensitively) or appends
 * a new record.
 *
 * The record that gains a date is an object shared with the caller's
 * collection and is updated in place (a push followed by an in-place sort),
 * so records are objects of class Entry; the rest of the operation works on
 * values, and AddEntrySpec states it on snapshots of the records.
 */
module Entries {
  import opened Wrappers
  import opened JsStrings

  datatype Mood = Sad | Neutral | Good | Great

  /** The value stored under a date: each field is present or absent. */
  datatype Annotation = Annotation(mood: Option<Mood>, note: Option<string>)

  /** One element of a record's `dates`: an object with the single key `key`. */
  datatype DateEntry = DateEntry(key: string, annotation: Annotation)

  /** A snapshot of a record: its name and its dated annotations. */
  datatype Record = Record(name: string, dates: seq<DateEntry>)

  /** What `addEntry` returns. */
  datatype AddResult = AddResult(success: bool, entries: seq<Record>)

  const MaxNameLength: nat := 50

  /**
   * The property names every plain object inherits from Object.prototype;
   * `key in obj` is true of them for any date object.
   */
  const InheritedNames: set<string> := {
    "constructor", "hasOwnProperty", "isPrototypeOf", "propertyIsEnumerable",
    "toLocaleString", "toString", "valueOf", "__proto__",
    "__defineGetter__", "__defineSetter__", "__lookupGetter__", "__lookupSetter__"
  }

  // ------------------------------------------------------------------
  // the steps of addEntry

  /** `name.slice(0, 50).trim()`: truncation first, trimming second. */
  function NormalizeName(name: string): (r: string)
    ensures |r| <= MaxNameLength
    ensures Unpadded(r)
    ensures IsTrimmingOf(r, SlicePrefix(name, MaxNameLength))
  {
    Trim(SlicePrefix(name, MaxNameLength))
  }

  /**
   * Normalising a stored name gives it back, so a record's own name passed to
   * addEntry again is looked up as it was stored.
   */
  lemma NormalizeNameIdempotent(name: string)
    ensures NormalizeName(NormalizeName(name)) == NormalizeName(name)
  {
    var r := NormalizeName(name);
    assert SlicePrefix(r, MaxNameLength) == r;
    TrimIdempotent(SlicePrefix(name, MaxNameLength));
  }

  /** `date || today`: an omitted or empty date falls back to today's date string. */
  function TargetDate(date: Option<string>, today: string): (r: string)
    ensures date.Some? && date.value != [] ==> r == date.value
    ensures date.None? || date.value == [] ==> r == today
  {
    match date
    case Some(d) => if d != [] then d else today
    case None => today
  }

  /** The annotation object: `mood` only when given, `note` only when non-empty. */
  function NewAnnotation(target: string, mood: Option<Mood>, note: Option<string>): (d: DateEntry)
    ensures d.key == target
    ensures d.annotation.mood == mood
    ensures d.annotation.note.Some? <==> note.Some? && note.value != []
    ensures d.annotation.note.Some? ==> d.annotation.note == note
  {
    var n := if note.Some? && note.value != [] then note else None;
    DateEntry(target, Annotation(mood, n))
  }

  /** `key in d`: the date object's own key, or an inherited property name. */
  predicate HasKey(d: DateEntry, key: string) {
    d.key == key || key in InheritedNames
  }

  /** `dates.some(dateObj => key in dateObj)`. */
  predicate HasDate(dates: seq<DateEntry>, key: string) {
    exists k :: 0 <= k < |dates| && HasKey(dates[k], key)
  }

  /** `entries.find(e => e.name.toLowerCase() === name.toLowerCase())`, as the index found. */
  function FindByName(entries: seq<Record>, name: string): (r: Option<nat>)
    ensures r.Some? ==> r.value < |entries| && SameIgnoringCase(entries[r.value].name, name)
    ensures r.Some? ==> forall j :: 0 <= j < r.value ==> !SameIgnoringCase(entries[j].name, name)
    ensures r.None? ==> forall j :: 0 <= j < |entries| ==> !SameIgnoringCase(entries[j].name, name)
  {
    if entries == [] then None
    else if SameIgnoringCase(entries[0].name, name) then Some(0)
    else match FindByName(entries[1..], name)
      case Some(i) => Some(i + 1)
      case None => None
  }

  // ------------------------------------------------------------------
  // sorting by date key

  predicate SortedByKey(dates: seq<DateEntry>) {
    forall i, j :: 0 <= i < j < |dates| ==> AtMost(dates[i].key, dates[j].key)
  }

  predicate DistinctKeys(dates: seq<DateEntry>) {
    forall i, j :: 0 <= i < j < |dates| ==> dates[i].key != dates[j].key
  }

  /** The invariant of a record's `dates`: each key at most once, ascending. */
  predicate WellFormedDates(dates: seq<DateEntry>) {
    SortedByKey(dates) && DistinctKeys(dates)
  }

  /** Insert d before the first element whose key is not below d's. */
  function InsertByKey(d: DateEntry, s: seq<DateEntry>): (r: seq<DateEntry>)
    ensures |r| == |s| + 1
    ensures multiset(r) == multiset(s) + multiset{d}
    ensures forall x :: x in r <==> x == d || x in s
    ensures r[0] == d || (s != [] && r[0] == s[0])
  {
    if s == [] then [d]
    else if AtMost(d.key, s[0].key) then [d] + s
    else
      assert s == [s[0]] + s[1..];
      [s[0]] + InsertByKey(d, s[1..])
  }

  /**
   * The sort of `dates.sort((a, b) => key(a).localeCompare(key(b)))`, written
   * as an insertion sort. It is stable (`SortByKeyStable`), as
   * `Array.prototype.sort` is required to be.
   */
  function SortByKey(s: seq<DateEntry>): (r: seq<DateEntry>)
    ensures |r| == |s|
    ensures multiset(r) == multiset(s)
  {
    if s == [] then []
    else
      assert s == [s[0]] + s[1..];
      InsertByKey(s[0], SortByKey(s[1..]))
  }

  /** The elements of s that carry the key k, in their order in s. */
  function WithKey(s: seq<DateEntry>, k: string): seq<DateEntry> {
    if s == [] then [] else (if s[0].key == k then [s[0]] else []) + WithKey(s[1..], k)
  }

  lemma WithKeyCons(x: DateEntry, s: seq<DateEntry>, k: string)
    ensures WithKey([x] + s, k) == (if x.key == k then [x] else []) + WithKey(s, k)
  {
    assert ([x] + s)[1..] == s;
  }

  /** Insertion puts d before every element with its key and moves nothing else. */
  lemma {:induction false} InsertByKeyStable(d: DateEntry, s: seq<DateEntry>, k: string)
    ensures WithKey(InsertByKey(d, s), k) == (if d.key == k then [d] else []) + WithKey(s, k)
    decreases |s|
  {
    if s == [] || AtMost(d.key, s[0].key) {
      assert InsertByKey(d, s) == [d] + s;
      WithKeyCons(d, s, k);
    } else {
      var rest := InsertByKey(d, s[1..]);
      assert InsertByKey(d, s) == [s[0]] + rest;
      assert s[0].key != d.key;
      InsertByKeyStable(d, s[1..], k);
      WithKeyCons(s[0], rest, k);
      WithKeyCons(s[0], s[1..], k);
      assert s == [s[0]] + s[1..];
    }
  }

  /** The sort is stable: the dates sharing a key keep their relative order. */
  lemma {:induction false} SortByKeyStable(s: seq<DateEntry>, k: string)
    ensures WithKey(SortByKey(s), k) == WithKey(s, k)
  {
    if s != [] {
      SortByKeyStable(s[1..], k);
      InsertByKeyStable(s[0], SortByKey(s[1..]), k);
    }
  }

  /** No element of s carries the key k. */
  predicate KeyAbsent(s: seq<DateEntry>, k: string) {
    forall j :: 0 <= j < |s| ==> s[j].key != k
  }

  /** An element whose key is not above the first key goes in front. */
  lemma InsertAtFront(d: DateEntry, s: seq<DateEntry>)
    requires s == [] || AtMost(d.key, s[0].key)
    ensures InsertByKey(d, s) == [d] + s
  {
  }

  /** A key no larger than the first key of a sorted sequence is no larger than any of its keys. */
  lemma BelowSortedHead(k: string, s: seq<DateEntry>)
    requires SortedByKey(s) && s != [] && AtMost(k, s[0].key)
    ensures forall j :: 0 <= j < |s| ==> AtMost(k, s[j].key)
  {
    forall j | 0 <= j < |s| ensures AtMost(k, s[j].key) {
      AtMostTransitive(k, s[0].key, s[j].key);
    }
  }

  /** Inserting into dates sorted by key keeps them sorted. */
  lemma {:induction false} InsertByKeySorted(d: DateEntry, s: seq<DateEntry>)
    requires SortedByKey(s)
    ensures SortedByKey(InsertByKey(d, s))
    decreases |s|
  {
    var r := InsertByKey(d, s);
    if s == [] {
    } else if AtMost(d.key, s[0].key) {
      BelowSortedHead(d.key, s);
      assert r == [d] + s;
    } else {
      var t := InsertByKey(d, s[1..]);
      InsertByKeySorted(d, s[1..]);
      assert r == [s[0]] + t;
      BelowTotal(d.key, s[0].key);
      forall j | 0 <= j < |t| ensures AtMost(s[0].key, t[j].key) {
        if t[j] != d {
          assert t[j] in s[1..];
          var k :| 0 <= k < |s[1..]| && s[1..][k] == t[j];
          assert s[k + 1] == t[j];
        }
      }
    }
  }

  /** Sorting yields a sequence ascending by key, whatever the input order. */
  lemma {:induction false} SortByKeySorted(s: seq<DateEntry>)
    ensures SortedByKey(SortByKey(s))
    decreases |s|
  {
    if s != [] {
      SortByKeySorted(s[1..]);
      InsertByKeySorted(s[0], SortByKey(s[1..]));
    }
  }

  /** Inserting a fresh key into well-formed dates keeps them well formed. */
  lemma {:induction false} InsertByKeyWellFormed(d: DateEntry, s: seq<DateEntry>)
    requires WellFormedDates(s) && KeyAbsent(s, d.key)
    ensures WellFormedDates(InsertByKey(d, s))
    decreases |s|
  {
    InsertByKeySorted(d, s);
    var r := InsertByKey(d, s);
    if s == [] {
    } else if AtMost(d.key, s[0].key) {
      assert r == [d] + s;
    } else {
      var t := InsertByKey(d, s[1..]);
      assert WellFormedDates(s[1..]) && KeyAbsent(s[1..], d.key);
      InsertByKeyWellFormed(d, s[1..]);
      assert r == [s[0]] + t;
      forall j | 0 <= j < |t| ensures s[0].key != t[j].key {
        if t[j] != d {
          assert t[j] in s[1..];
          var k :| 0 <= k < |s[1..]| && s[1..][k] == t[j];
          assert s[k + 1] == t[j];
        }
      }
    }
  }

  /** A date whose key the rest lacks can go in front of distinct keys. */
  lemma ConsDistinct(x: DateEntry, s: seq<DateEntry>)
    requires DistinctKeys(s) && KeyAbsent(s, x.key)
    ensures DistinctKeys([x] + s)
  {
    var r := [x] + s;
    forall i, j | 0 <= i < j < |r| ensures r[i].key != r[j].key {
      if i > 0 { assert r[i] == s[i - 1] && r[j] == s[j - 1]; }
      else { assert r[j] == s[j - 1]; }
    }
  }

  /** A key absent from some dates is absent from any rearrangement of them. */
  lemma KeyAbsentSameElements(s: seq<DateEntry>, t: seq<DateEntry>, k: string)
    requires multiset(s) == multiset(t) && KeyAbsent(s, k)
    ensures KeyAbsent(t, k)
  {
    forall j | 0 <= j < |t| ensures t[j].key != k {
      assert t[j] in multiset(s);
      var i :| 0 <= i < |s| && s[i] == t[j];
    }
  }

  /** Inserting a fresh key into dates with distinct keys keeps them distinct, sorted or not. */
  lemma {:induction false} InsertByKeyDistinct(d: DateEntry, s: seq<DateEntry>)
    requires DistinctKeys(s) && KeyAbsent(s, d.key)
    ensures DistinctKeys(InsertByKey(d, s))
    decreases |s|
  {
    if s == [] || AtMost(d.key, s[0].key) {
      assert InsertByKey(d, s) == [d] + s;
      ConsDistinct(d, s);
    } else {
      var rest := s[1..];
      var t := InsertByKey(d, rest);
      assert InsertByKey(d, s) == [s[0]] + t;
      assert DistinctKeys(rest) && KeyAbsent(rest, d.key);
      InsertByKeyDistinct(d, rest);
      assert KeyAbsent(rest + [d], s[0].key) by {
        forall j | 0 <= j < |rest + [d]| ensures (rest + [d])[j].key != s[0].key {
          if j < |rest| { assert (rest + [d])[j] == s[j + 1]; }
        }
      }
      assert multiset(rest + [d]) == multiset(t);
      KeyAbsentSameElements(rest + [d], t, s[0].key);
      ConsDistinct(s[0], t);
    }
  }

  /** Sorting permutes the dates, so distinct keys stay distinct. */
  lemma {:induction false} SortByKeyDistinct(s: seq<DateEntry>)
    requires DistinctKeys(s)
    ensures DistinctKeys(SortByKey(s))
  {
    if s != [] {
      var rest := s[1..];
      assert DistinctKeys(rest);
      SortByKeyDistinct(rest);
      assert KeyAbsent(rest, s[0].key) by {
        forall j | 0 <= j < |rest| ensures rest[j].key != s[0].key {
          assert rest[j] == s[j + 1];
        }
      }
      KeyAbsentSameElements(rest, SortByKey(rest), s[0].key);
      InsertByKeyDistinct(s[0], SortByKey(rest));
    }
  }

  /** Pushing a key below every key of well-formed dates and sorting puts it first. */
  lemma PushBelowAll(s: seq<DateEntry>, d: DateEntry, t: seq<DateEntry>)
    requires WellFormedDates(s) && s != [] && Below(d.key, s[0].key)
    requires t == InsertByKey(d, s[1..])
    ensures InsertByKey(s[0], t) == InsertByKey(d, s)
  {
    if |s| > 1 {
      BelowTransitive(d.key, s[0].key, s[1].key);
    }
    InsertAtFront(d, s[1..]);
    BelowAsymmetric(d.key, s[0].key);
    InsertAtFront(s[0], s[1..]);
    assert s == [s[0]] + s[1..];
    InsertAtFront(d, s);
  }

  /** Pushing a key above the first key of well-formed dates and sorting keeps the first key first. */
  lemma PushAboveHead(s: seq<DateEntry>, d: DateEntry, t: seq<DateEntry>)
    requires WellFormedDates(s) && s != [] && Below(s[0].key, d.key)
    requires t == InsertByKey(d, s[1..])
    ensures InsertByKey(s[0], t) == InsertByKey(d, s)
  {
    if |s| > 1 {
      assert AtMost(s[0].key, s[1].key);
    }
    assert AtMost(s[0].key, t[0].key);
    InsertAtFront(s[0], t);
    BelowAsymmetric(s[0].key, d.key);
  }

  /** Pushing a new key onto well-formed dates and sorting is inserting it in place. */
  lemma {:induction false} SortAfterPush(s: seq<DateEntry>, d: DateEntry)
    requires WellFormedDates(s) && KeyAbsent(s, d.key)
    ensures SortByKey(s + [d]) == InsertByKey(d, s)
    decreases |s|
  {
    if s == [] {
      assert [] + [d] == [d];
    } else {
      var rest := s[1..];
      assert (s + [d])[1..] == rest + [d];
      assert WellFormedDates(rest) && KeyAbsent(rest, d.key);
      SortAfterPush(rest, d);
      var t := InsertByKey(d, rest);
      assert SortByKey(s + [d]) == InsertByKey(s[0], t);
      BelowTotal(d.key, s[0].key);
      if Below(d.key, s[0].key) {
        PushBelowAll(s, d, t);
      } else {
        PushAboveHead(s, d, t);
      }
    }
  }

  // ------------------------------------------------------------------
  // addEntry on values

  /** Record i of after is record i of before with d added to its dates; nothing else differs. */
  ghost predicate AddedDate(before: seq<Record>, after: seq<Record>, i: nat, d: DateEntry) {
    && i < |before| == |after|
    && (forall j :: 0 <= j < |before| && j != i ==> after[j] == before[j])
    && after[i].name == before[i].name
    && |after[i].dates| == |before[i].dates| + 1
    && multiset(after[i].dates) == multiset(before[i].dates) + multiset{d}
    && SortedByKey(after[i].dates)
  }

  /** The date addEntry would store for these arguments. */
  function Annotated(date: Option<string>, mood: Option<Mood>, note: Option<string>, today: string): DateEntry {
    NewAnnotation(TargetDate(date, today), mood, note)
  }

  /** The name matches a record that already has the target date. */
  predicate IsDuplicateDate(entries: seq<Record>, name: string, target: string) {
    var f := FindByName(entries, name);
    f.Some? && HasDate(entries[f.value].dates, target)
  }

  /** The record after `dates.push(d)` and the sort by key. */
  function AddToRecord(rec: Record, d: DateEntry): (r: Record)
    ensures r.name == rec.name
    ensures |r.dates| == |rec.dates| + 1
    ensures multiset(r.dates) == multiset(rec.dates) + multiset{d}
    ensures SortedByKey(r.dates)
  {
    SortByKeySorted(rec.dates + [d]);
    assert multiset(rec.dates + [d]) == multiset(rec.dates) + multiset{d};
    Record(rec.name, SortByKey(rec.dates + [d]))
  }

  /** addEntry once the name is known to be non-blank and the date entry is built. */
  function AddToNamed(entries: seq<Record>, name: string, d: DateEntry): (r: AddResult)
    ensures r.success <==> !IsDuplicateDate(entries, name, d.key)
    ensures !r.success ==> r.entries == entries
    ensures r.success && FindByName(entries, name).Some? ==>
      AddedDate(entries, r.entries, FindByName(entries, name).value, d)
    ensures r.success && FindByName(entries, name).None? ==>
      && |r.entries| == |entries| + 1
      && r.entries[..|entries|] == entries
      && r.entries[|entries|] == Record(name, [d])
  {
    match FindByName(entries, name)
    case Some(i) =>
      if HasDate(entries[i].dates, d.key) then AddResult(false, entries)
      else AddResult(true, entries[i := AddToRecord(entries[i], d)])
    case None =>
      AddResult(true, entries + [Record(name, [d])])
  }

  /**
   * `addEntry(entries, name, date, mood, note)` with today's date string given
   * as `today`: the outcome and the resulting collection of record snapshots.
   */
  function AddEntrySpec(entries: seq<Record>, name: string, date: Option<string>,
                        mood: Option<Mood>, note: Option<string>, today: string): (r: AddResult)
    // success exactly when the name is not blank and its record, if any, lacks the date
    ensures r.success <==>
      NormalizeName(name) != [] && !IsDuplicateDate(entries, NormalizeName(name), TargetDate(date, today))
    // a failure returns the input collection untouched
    ensures !r.success ==> r.entries == entries
    // a known name: its record grows by the new date, kept sorted, and nothing else differs
    ensures r.success && FindByName(entries, NormalizeName(name)).Some? ==>
      AddedDate(entries, r.entries, FindByName(entries, NormalizeName(name)).value, Annotated(date, mood, note, today))
    // a new name: one record appended, holding only the new date
    ensures r.success && FindByName(entries, NormalizeName(name)).None? ==>
      && |r.entries| == |entries| + 1
      && r.entries[..|entries|] == entries
      && r.entries[|entries|] == Record(NormalizeName(name), [Annotated(date, mood, note, today)])
  {
    var trimmed := NormalizeName(name);
    if trimmed == [] then AddResult(false, entries)
    else AddToNamed(entries, trimmed, Annotated(date, mood, note, today))
  }

  /** Every record's dates are well formed. */
  predicate AllWellFormed(entries: seq<Record>) {
    forall j :: 0 <= j < |entries| ==> WellFormedDates(entries[j].dates)
  }

  /** No two records have names equal up to case. */
  predicate UniqueNames(entries: seq<Record>) {
    forall i, j :: 0 <= i < j < |entries| ==> !SameIgnoringCase(entries[i].name, entries[j].name)
  }

  /** Adding an absent date to well-formed dates, then sorting, keeps them well formed. */
  lemma AddDateWellFormed(s: seq<DateEntry>, d: DateEntry)
    requires WellFormedDates(s) && !HasDate(s, d.key)
    ensures WellFormedDates(SortByKey(s + [d]))
  {
    assert KeyAbsent(s, d.key) by {
      forall j | 0 <= j < |s| ensures s[j].key != d.key {
        assert !HasKey(s[j], d.key);
      }
    }
    SortAfterPush(s, d);
    InsertByKeyWellFormed(d, s);
  }

  /** Every record's date keys are distinct, whether or not they are sorted. */
  predicate AllDistinctKeys(entries: seq<Record>) {
    forall j :: 0 <= j < |entries| ==> DistinctKeys(entries[j].dates)
  }

  /** Adding an absent date to dates with distinct keys, then sorting, keeps the keys distinct. */
  lemma AddDateDistinct(s: seq<DateEntry>, d: DateEntry)
    requires DistinctKeys(s) && !HasDate(s, d.key)
    ensures DistinctKeys(SortByKey(s + [d]))
  {
    var p := s + [d];
    forall i, j | 0 <= i < j < |p| ensures p[i].key != p[j].key {
      if j == |s| { assert !HasKey(s[i], d.key); }
      else { assert p[i] == s[i] && p[j] == s[j]; }
    }
    SortByKeyDistinct(p);
  }

  /**
   * addEntry keeps every record's date keys distinct, also for records loaded
   * unsorted from storage.
   */
  lemma AddEntryPreservesDistinctKeys(entries: seq<Record>, name: string, date: Option<string>,
                                      mood: Option<Mood>, note: Option<string>, today: string)
    requires AllDistinctKeys(entries)
    ensures AllDistinctKeys(AddEntrySpec(entries, name, date, mood, note, today).entries)
  {
    if NormalizeName(name) != [] {
      AddToNamedPreservesDistinctKeys(entries, NormalizeName(name), Annotated(date, mood, note, today));
    }
  }

  /** AddEntryPreservesDistinctKeys once the name is normalised and the date entry built. */
  lemma AddToNamedPreservesDistinctKeys(entries: seq<Record>, name: string, d: DateEntry)
    requires AllDistinctKeys(entries)
    ensures AllDistinctKeys(AddToNamed(entries, name, d).entries)
  {
    var f := FindByName(entries, name);
    if f.Some? && !HasDate(entries[f.value].dates, d.key) {
      AddDateDistinct(entries[f.value].dates, d);
    }
  }

  /** addEntry keeps every record's date keys distinct and ascending. */
  lemma AddEntryPreservesWellFormed(entries: seq<Record>, name: string, date: Option<string>,
                                    mood: Option<Mood>, note: Option<string>, today: string)
    requires AllWellFormed(entries)
    ensures AllWellFormed(AddEntrySpec(entries, name, date, mood, note, today).entries)
  {
    if NormalizeName(name) != [] {
      AddToNamedPreservesWellFormed(entries, NormalizeName(name), Annotated(date, mood, note, today));
    }
  }

  /** AddEntryPreservesWellFormed once the name is normalised and the date entry built. */
  lemma AddToNamedPreservesWellFormed(entries: seq<Record>, name: string, d: DateEntry)
    requires AllWellFormed(entries)
    ensures AllWellFormed(AddToNamed(entries, name, d).entries)
  {
    var f := FindByName(entries, name);
    if f.Some? && !HasDate(entries[f.value].dates, d.key) {
      AddDateWellFormed(entries[f.value].dates, d);
    }
  }

  /** addEntry never creates a second record whose name differs only in case. */
  lemma AddEntryPreservesUniqueNames(entries: seq<Record>, name: string, date: Option<string>,
                                     mood: Option<Mood>, note: Option<string>, today: string)
    requires UniqueNames(entries)
    ensures UniqueNames(AddEntrySpec(entries, name, date, mood, note, today).entries)
  {
    if NormalizeName(name) != [] {
      AddToNamedPreservesUniqueNames(entries, NormalizeName(name), Annotated(date, mood, note, today));
    }
  }

  /** AddEntryPreservesUniqueNames once the name is normalised and the date entry built. */
  lemma AddToNamedPreservesUniqueNames(entries: seq<Record>, name: string, d: DateEntry)
    requires UniqueNames(entries)
    ensures UniqueNames(AddToNamed(entries, name, d).entries)
  {
    match FindByName(entries, name)
    case None =>
      AppendKeepsUniqueNames(entries, Record(name, [d]));
    case Some(i) =>
      if !HasDate(entries[i].dates, d.key) {
        var r := entries[i := AddToRecord(entries[i], d)];
        assert forall j :: 0 <= j < |r| ==> r[j].name == entries[j].name;
      }
  }

  /** Appending a record whose name matches no existing one keeps names unique. */
  lemma AppendKeepsUniqueNames(entries: seq<Record>, rec: Record)
    requires UniqueNames(entries)
    requires forall j :: 0 <= j < |entries| ==> !SameIgnoringCase(entries[j].name, rec.name)
    ensures UniqueNames(entries + [rec])
  {
    var r := entries + [rec];
    forall i, j | 0 <= i < j < |r| ensures !SameIgnoringCase(r[i].name, r[j].name) {
      assert r[i] == entries[i];
    }
  }

  /** The lookup sees only the names, and only up to case. */
  lemma FindByNameSameNames(a: seq<Record>, b: seq<Record>, name: string, name2: string)
    requires |a| == |b| && forall j :: 0 <= j < |a| ==> a[j].name == b[j].name
    requires SameIgnoringCase(name, name2)
    ensures FindByName(a, name) == FindByName(b, name2)
  {
    forall j | 0 <= j < |a| ensures SameIgnoringCase(a[j].name, name) <==> SameIgnoringCase(b[j].name, name2) {
    }
  }

  /** A name matching no record is found at the record appended for it. */
  lemma FindByNameAppended(entries: seq<Record>, rec: Record, name: string)
    requires FindByName(entries, name).None? && SameIgnoringCase(rec.name, name)
    ensures FindByName(entries + [rec], name) == Some(|entries|)
  {
    var r := entries + [rec];
    assert SameIgnoringCase(r[|entries|].name, name);
    forall j | 0 <= j < |entries| ensures r[j] == entries[j] {
    }
  }

  /** Once a date was added under a name, adding that date again under the name, in any case, fails. */
  lemma AddToNamedTwice(entries: seq<Record>, name: string, name2: string, d: DateEntry, d2: DateEntry)
    requires AddToNamed(entries, name, d).success
    requires SameIgnoringCase(name, name2) && d2.key == d.key
    ensures !AddToNamed(AddToNamed(entries, name, d).entries, name2, d2).success
  {
    var after := AddToNamed(entries, name, d).entries;
    match FindByName(entries, name)
    case Some(i) =>
      FindByNameSameNames(entries, after, name, name2);
      assert d in multiset(after[i].dates);
      var k :| 0 <= k < |after[i].dates| && after[i].dates[k] == d;
      assert HasKey(after[i].dates[k], d2.key);
    case None =>
      FindByNameAppended(entries, Record(name, [d]), name);
      FindByNameSameNames(after, after, name, name2);
      assert HasKey(after[|entries|].dates[0], d2.key);
  }

  /**
   * A second `addEntry` with the same date under the same name, in any case,
   * fails whatever its mood and note.
   */
  lemma AddEntryTwiceRejected(entries: seq<Record>, name: string, name2: string, date: Option<string>,
                              mood: Option<Mood>, note: Option<string>,
                              mood2: Option<Mood>, note2: Option<string>, today: string)
    requires AddEntrySpec(entries, name, date, mood, note, today).success
    requires SameIgnoringCase(NormalizeName(name), NormalizeName(name2))
    ensures !AddEntrySpec(AddEntrySpec(entries, name, date, mood, note, today).entries,
                          name2, date, mood2, note2, today).success
  {
    AddToNamedTwice(entries, NormalizeName(name), NormalizeName(name2),
                    Annotated(date, mood, note, today), Annotated(date, mood2, note2, today));
  }

  /**
   * Truncation comes before trimming: a name whose first 50 characters are
   * whitespace is rejected, whatever follows them.
   */
  lemma PaddedNameRejected(entries: seq<Record>, pad: string, rest: string, date: Option<string>,
                           mood: Option<Mood>, note: Option<string>, today: string)
    requires |pad| >= MaxNameLength && AllSpace(pad)
    ensures NormalizeName(pad + rest) == []
    ensures AddEntrySpec(entries, pad + rest, date, mood, note, today) == AddResult(false, entries)
  {
    var cut := SlicePrefix(pad + rest, MaxNameLength);
    assert cut == pad[..MaxNameLength];
    TrimEmptyIffBlank(cut);
  }

  // ------------------------------------------------------------------
  // records as objects, and addEntry as the source runs it

  /** A record object; `dates` is reassigned in place when a date is added. */
  class Entry {
    var name: string
    var dates: seq<DateEntry>

    constructor (name: string, dates: seq<DateEntry>)
      ensures this.name == name && this.dates == dates
    {
      this.name := name;
      this.dates := dates;
    }

    /** `dates.push(d)` followed by the in-place `dates.sort(...)` by key. */
    method AddDate(d: DateEntry)
      modifies this
      ensures name == old(name)
      ensures dates == SortByKey(old(dates) + [d])
    {
      dates := dates + [d];
      dates := SortByKey(dates);
    }
  }

  function Snapshot(e: Entry): Record
    reads e
  {
    Record(e.name, e.dates)
  }

  function Snapshots(es: seq<Entry>): (rs: seq<Record>)
    reads set e | e in es
    ensures |rs| == |es|
    ensures forall i :: 0 <= i < |es| ==> rs[i] == Snapshot(es[i])
  {
    if es == [] then [] else [Snapshot(es[0])] + Snapshots(es[1..])
  }

  /** No record object occurs twice in the collection. */
  predicate Unaliased(es: seq<Entry>) {
    forall i, j :: 0 <= i < j < |es| ==> es[i] != es[j]
  }

  /** The date push and sort on record i, seen through the snapshots of the whole collection. */
  method AddDateAt(entries: seq<Entry>, i: nat, d: DateEntry)
    requires i < |entries|
    modifies entries[i]
    ensures entries[i].name == old(entries[i].name)
    ensures entries[i].dates == SortByKey(old(entries[i].dates) + [d])
    ensures Unaliased(entries) ==>
      Snapshots(entries) == old(Snapshots(entries))[i := Record(old(entries[i].name), SortByKey(old(entries[i].dates) + [d]))]
  {
    ghost var before := Snapshots(entries);
    entries[i].AddDate(d);
    if Unaliased(entries) {
      forall j | 0 <= j < |entries| ensures Snapshots(entries)[j] == before[i := Record(before[i].name, entries[i].dates)][j] {
        if j != i { assert entries[j] != entries[i]; }
      }
    }
  }

  /** `[...entries, record]` with a fresh record object, seen through the snapshots. */
  method AppendRecord(entries: seq<Entry>, name: string, d: DateEntry) returns (result: seq<Entry>)
    ensures |result| == |entries| + 1 && result[..|entries|] == entries
    ensures fresh(result[|entries|])
    ensures Snapshot(result[|entries|]) == Record(name, [d])
    ensures Unaliased(entries) ==> Unaliased(result)
    ensures Snapshots(result) == Snapshots(entries) + [Record(name, [d])]
  {
    var created := new Entry(name, [d]);
    result := entries + [created];
    assert result[..|entries|] == entries;
    forall j | 0 <= j < |result| ensures Snapshots(result)[j] == (Snapshots(entries) + [Record(name, [d])])[j] {
      if j < |entries| { assert result[j] == entries[j]; }
    }
  }

  /**
   * AddToNamed on the record objects: a duplicate date returns the same
   * collection; a known name pushes the date onto the shared record object
   * and sorts its dates in place; a new name appends a fresh record object.
   */
  method AddToNamedObjects(entries: seq<Entry>, name: string, d: DateEntry)
    returns (success: bool, result: seq<Entry>)
    modifies set e | e in entries
    ensures success == AddToNamed(old(Snapshots(entries)), name, d).success
    ensures !success ==> result == entries && unchanged(entries)
    ensures var f := FindByName(old(Snapshots(entries)), name);
      success && f.Some? ==>
        && result == entries
        && entries[f.value].name == old(entries[f.value].name)
        && entries[f.value].dates == SortByKey(old(entries[f.value].dates) + [d])
        && forall e | e in entries && e != entries[f.value] :: unchanged(e)
    ensures var f := FindByName(old(Snapshots(entries)), name);
      success && f.None? ==>
        && |result| == |entries| + 1
        && result[..|entries|] == entries
        && fresh(result[|entries|])
        && Snapshot(result[|entries|]) == Record(name, [d])
        && unchanged(entries)
    ensures Unaliased(entries) ==> Unaliased(result)
    ensures Unaliased(entries) ==> Snapshots(result) == AddToNamed(old(Snapshots(entries)), name, d).entries
  {
    ghost var before := Snapshots(entries);
    success, result := false, entries;
    var found := FindByName(Snapshots(entries), name);
    if found.None? {
      success := true;
      result := AppendRecord(entries, name, d);
    } else if !HasDate(entries[found.value].dates, d.key) {
      var i := found.value;
      AddDateAt(entries, i, d);
      success := true;
      assert AddToNamed(before, name, d) == AddResult(true, before[i := AddToRecord(before[i], d)]);
    }
  }

  /**
   * `addEntry` as the source runs it: a blank name or a duplicate date
   * returns the same collection; otherwise the date is added as
   * AddToNamedObjects does.
   */
  method AddEntry(entries: seq<Entry>, name: string, date: Option<string>,
                  mood: Option<Mood>, note: Option<string>, today: string)
    returns (success: bool, result: seq<Entry>)
    modifies set e | e in entries
    ensures success == AddEntrySpec(old(Snapshots(entries)), name, date, mood, note, today).success
    ensures !success ==> result == entries && unchanged(entries)
    ensures var f := FindByName(old(Snapshots(entries)), NormalizeName(name));
      success && f.Some? ==>
        && result == entries
        && entries[f.value].name == old(entries[f.value].name)
        && entries[f.value].dates == SortByKey(old(entries[f.value].dates) + [Annotated(date, mood, note, today)])
        && forall e | e in entries && e != entries[f.value] :: unchanged(e)
    ensures var f := FindByName(old(Snapshots(entries)), NormalizeName(name));
      success && f.None? ==>
        && |result| == |entries| + 1
        && result[..|entries|] == entries
        && fresh(result[|entries|])
        && Snapshot(result[|entries|]) == Record(NormalizeName(name), [Annotated(date, mood, note, today)])
        && unchanged(entries)
    // without aliasing, the records afterwards are exactly those of AddEntrySpec
    ensures Unaliased(entries) ==> Unaliased(result)
    ensures Unaliased(entries) ==>
      Snapshots(result) == AddEntrySpec(old(Snapshots(entries)), name, date, mood, note, today).entries
  {
    var trimmed := NormalizeName(name);
    if trimmed == [] {
      success, result := false, entries;
    } else {
      var d := NewAnnotation(TargetDate(date, today), mood, note);
      success, result := AddToNamedObjects(entries, trimmed, d);
    }
  }
}
