/**
 * The value side of `ContactsListModel` (Contacts/List/ContactsListModel.swift):
 * its `Section` record, the alphabetical sectioning that `sortSections`
 * recomputes after every change of the contact list, and the per-section
 * search filter.
 *
 * `UILocalizedIndexedCollation` is locale-dependent; it is taken as a
 * `Collation` value with the three things the code uses: the section titles,
 * the section a contact falls in, and the sorted order of an array.
 */
module Sectioning {
  import opened Wrappers
  import opened ObjectLibrary

  /** `Section`: a titled, non-empty group of contacts. */
  datatype Section = Section(title: string, contacts: seq<Contact>)

  /** `Section.init?(title:contacts:)`: fails on an empty group. */
  function MakeSection(title: string, contacts: seq<Contact>): (r: Option<Section>)
    ensures r.None? <==> contacts == []
    ensures r.Some? ==> r.value.title == title && r.value.contacts == contacts
  {
    if contacts == [] then None else Some(Section(title, contacts))
  }

  datatype Collation = Collation(
    sectionTitles: seq<string>,                 // collation.sectionTitles
    sectionIndexTitles: seq<string>,            // collation.sectionIndexTitles
    sectionFor: Contact -> nat,                 // collation.section(for:collationStringSelector:)
    sortedArray: seq<Contact> -> seq<Contact>)  // collation.sortedArray(from:collationStringSelector:)
  {
    /** What the code relies on: every contact falls in one of the sections,
      * the titles are distinct, and sorting only reorders. */
    ghost predicate Valid() {
      && (forall c :: sectionFor(c) < |sectionTitles|)
      && (forall i, j :: 0 <= i < j < |sectionTitles| ==> sectionTitles[i] != sectionTitles[j])
      && (forall s :: multiset(sortedArray(s)) == multiset(s))
    }
  }

  predicate IsSubsequence<T(==)>(a: seq<T>, b: seq<T>) {
    if a == [] then true
    else if b == [] then false
    else if a[0] == b[0] then IsSubsequence(a[1..], b[1..])
    else IsSubsequence(a, b[1..])
  }

  // ---------------------------------------------------------------------------
  // Sectioning (sortSections, ContactsListModel.swift:71-85)

  /** The contacts of `s` that fall in section `k`, in the order of `s`: the
    * bucket `reduce(into:)` fills. */
  function Bucket(col: Collation, s: seq<Contact>, k: nat): seq<Contact>
  {
    if s == [] then []
    else
      var last := s[|s| - 1];
      Bucket(col, s[..|s| - 1], k) + (if col.sectionFor(last) == k then [last] else [])
  }

  /** Filing one more contact extends only the bucket of its own section. */
  lemma BucketSnoc(col: Collation, s: seq<Contact>, x: Contact, k: nat)
    ensures Bucket(col, s + [x], k) == Bucket(col, s, k) + if col.sectionFor(x) == k then [x] else []
  {
    assert (s + [x])[..|s|] == s;
  }

  /** Every contact of bucket `k` falls in section `k`. */
  lemma {:induction false} BucketInSection(col: Collation, s: seq<Contact>, k: nat, x: Contact)
    requires x in Bucket(col, s, k)
    ensures col.sectionFor(x) == k
  {
    var init := s[..|s| - 1];
    var last := s[|s| - 1];
    if x != last || col.sectionFor(last) != k {
      BucketInSection(col, init, k, x);
    }
  }

  /** Appending to the longer sequence, or to both, keeps a subsequence. */
  lemma {:induction false} SubsequenceSnoc<T>(a: seq<T>, b: seq<T>, x: T)
    requires IsSubsequence(a, b)
    ensures IsSubsequence(a, b + [x])
    ensures IsSubsequence(a + [x], b + [x])
  {
    if b == [] {
      assert a == [];
      assert ([x] + [])[1..] == [];
    } else {
      assert (b + [x])[1..] == b[1..] + [x];
      if a == [] {
        assert [] + [x] == [x];
        if b[0] != x {
          SubsequenceSnoc([], b[1..], x);
        } else {
          assert [x][1..] == [];
        }
      } else if a[0] == b[0] {
        SubsequenceSnoc(a[1..], b[1..], x);
        assert (a + [x])[1..] == a[1..] + [x];
      } else {
        SubsequenceSnoc(a, b[1..], x);
      }
    }
  }

  /** A bucket keeps the order of the sequence it was filled from. */
  lemma {:induction false} BucketKeepsOrder(col: Collation, s: seq<Contact>, k: nat)
    ensures IsSubsequence(Bucket(col, s, k), s)
  {
    if s != [] {
      var init := s[..|s| - 1];
      var last := s[|s| - 1];
      BucketKeepsOrder(col, init, k);
      assert s == init + [last];
      SubsequenceSnoc(Bucket(col, init, k), init, last);
      if col.sectionFor(last) == k {
        assert Bucket(col, s, k) == Bucket(col, init, k) + [last];
      } else {
        assert Bucket(col, s, k) == Bucket(col, init, k);
      }
    }
  }

  /** How often `x` occurs in `s`. */
  ghost function Occurrences(s: seq<Contact>, x: Contact): nat {
    if s == [] then 0
    else Occurrences(s[..|s| - 1], x) + if s[|s| - 1] == x then 1 else 0
  }

  lemma {:induction false} OccurrencesAppend(a: seq<Contact>, b: seq<Contact>, x: Contact)
    ensures Occurrences(a + b, x) == Occurrences(a, x) + Occurrences(b, x)
  {
    if b == [] {
      assert a + b == a;
    } else {
      assert (a + b)[..|a + b| - 1] == a + b[..|b| - 1];
      OccurrencesAppend(a, b[..|b| - 1], x);
    }
  }

  lemma {:induction false} OccurrencesMultiplicity(s: seq<Contact>, x: Contact)
    ensures Occurrences(s, x) == multiset(s)[x]
  {
    if s != [] {
      assert s == s[..|s| - 1] + [s[|s| - 1]];
      OccurrencesMultiplicity(s[..|s| - 1], x);
    }
  }

  /** Sequences in which every contact occurs equally often are
    * permutations of each other. */
  lemma SameOccurrences(a: seq<Contact>, b: seq<Contact>)
    requires forall x :: Occurrences(a, x) == Occurrences(b, x)
    ensures multiset(a) == multiset(b)
  {
    forall x
      ensures multiset(a)[x] == multiset(b)[x]
    {
      OccurrencesMultiplicity(a, x);
      OccurrencesMultiplicity(b, x);
    }
  }

  /** A bucket holds every occurrence of the contacts of its section and
    * nothing else. */
  lemma {:induction false} BucketCount(col: Collation, s: seq<Contact>, k: nat, x: Contact)
    ensures Occurrences(Bucket(col, s, k), x) == if col.sectionFor(x) == k then Occurrences(s, x) else 0
  {
    if s != [] {
      var init := s[..|s| - 1];
      var last := s[|s| - 1];
      BucketCount(col, init, k, x);
      if col.sectionFor(last) == k {
        assert Bucket(col, s, k) == Bucket(col, init, k) + [last];
        OccurrencesAppend(Bucket(col, init, k), [last], x);
        assert [last][..0] == [];
      } else {
        assert Bucket(col, s, k) == Bucket(col, init, k);
      }
    }
  }

  /** The non-empty sections among the first `k` titles, in title order:
    * `enumerated().compactMap` over the buckets. */
  function SectionsUpTo(col: Collation, sorted: seq<Contact>, k: nat): seq<Section>
    requires k <= |col.sectionTitles|
  {
    if k == 0 then []
    else
      SectionsUpTo(col, sorted, k - 1) +
      match MakeSection(col.sectionTitles[k - 1], Bucket(col, sorted, k - 1))
      case Some(section) => [section]
      case None => []
  }

  /** `compactMap` keeps no empty section. */
  lemma {:induction false} SectionsUpToNonEmpty(col: Collation, sorted: seq<Contact>, k: nat)
    requires k <= |col.sectionTitles|
    ensures forall i :: 0 <= i < |SectionsUpTo(col, sorted, k)| ==> SectionsUpTo(col, sorted, k)[i].contacts != []
  {
    if k > 0 {
      SectionsUpToNonEmpty(col, sorted, k - 1);
    }
  }

  /** One more title appends its section when its bucket is not empty. */
  lemma SectionsUpToStep(col: Collation, sorted: seq<Contact>, k: nat, bucket: seq<Contact>)
    requires k < |col.sectionTitles|
    requires bucket == Bucket(col, sorted, k)
    ensures SectionsUpTo(col, sorted, k + 1) == SectionsUpTo(col, sorted, k) +
      match MakeSection(col.sectionTitles[k], bucket)
      case Some(section) => [section]
      case None => []
  {
  }

  /** The `sections` derived from `contacts`. */
  function Sectioned(col: Collation, contacts: seq<Contact>): seq<Section> {
    SectionsUpTo(col, col.sortedArray(contacts), |col.sectionTitles|)
  }

  /** Where `t` stands among `titles`; `|titles|` when it is not there. */
  function TitleIndex(titles: seq<string>, t: string): (r: nat)
    ensures r <= |titles|
    ensures r < |titles| ==> titles[r] == t
    ensures forall j :: 0 <= j < r ==> titles[j] != t
  {
    if titles == [] || titles[0] == t then 0 else 1 + TitleIndex(titles[1..], t)
  }

  /** The sections' contacts, one section after the other. */
  function Flatten(secs: seq<Section>): seq<Contact> {
    if secs == [] then [] else Flatten(secs[..|secs| - 1]) + secs[|secs| - 1].contacts
  }

  /** The total number of rows over all sections. */
  function TotalRows(secs: seq<Section>): nat {
    if secs == [] then 0 else TotalRows(secs[..|secs| - 1]) + |secs[|secs| - 1].contacts|
  }

  /** A title's index is its position, since the titles are distinct. */
  lemma TitleIndexOfTitle(col: Collation, k: nat)
    requires col.Valid()
    requires k < |col.sectionTitles|
    ensures TitleIndex(col.sectionTitles, col.sectionTitles[k]) == k
  {
  }

  /** Each section built from the first `k` titles is the bucket of its title,
    * and the titles come in strictly increasing title order. */
  lemma {:induction false} SectionsUpToShape(col: Collation, sorted: seq<Contact>, k: nat)
    requires col.Valid()
    requires k <= |col.sectionTitles|
    ensures ShapedBelow(col, sorted, SectionsUpTo(col, sorted, k), k)
  {
    if k > 0 {
      SectionsUpToShape(col, sorted, k - 1);
      var prev := SectionsUpTo(col, sorted, k - 1);
      var bucket := Bucket(col, sorted, k - 1);
      if bucket == [] {
        assert SectionsUpTo(col, sorted, k) == prev;
        ShapedBelowMonotone(col, sorted, prev, k - 1);
      } else {
        TitleIndexOfTitle(col, k - 1);
        var added := Section(col.sectionTitles[k - 1], bucket);
        assert SectionsUpTo(col, sorted, k) == prev + [added];
        ShapeSnoc(col, sorted, prev, added, k);
      }
    }
  }

  /** Each of `secs` is the bucket of a title below `k`, and the title
    * positions increase strictly. */
  ghost predicate ShapedBelow(col: Collation, sorted: seq<Contact>, secs: seq<Section>, k: nat) {
    && (forall i :: 0 <= i < |secs| ==>
          TitleIndex(col.sectionTitles, secs[i].title) < k &&
          secs[i].contacts == Bucket(col, sorted, TitleIndex(col.sectionTitles, secs[i].title)))
    && (forall i, j :: 0 <= i < j < |secs| ==>
          TitleIndex(col.sectionTitles, secs[i].title) < TitleIndex(col.sectionTitles, secs[j].title))
  }

  lemma ShapedBelowMonotone(col: Collation, sorted: seq<Contact>, secs: seq<Section>, k: nat)
    requires ShapedBelow(col, sorted, secs, k)
    ensures ShapedBelow(col, sorted, secs, k + 1)
  {
  }

  /** One step of `SectionsUpToShape`: appending the section of title `k - 1`
    * to sections of lower titles. */
  lemma ShapeSnoc(col: Collation, sorted: seq<Contact>, prev: seq<Section>, added: Section, k: nat)
    requires 0 < k
    requires ShapedBelow(col, sorted, prev, k - 1)
    requires TitleIndex(col.sectionTitles, added.title) == k - 1
    requires added.contacts == Bucket(col, sorted, k - 1)
    ensures ShapedBelow(col, sorted, prev + [added], k)
  {
    var titles := col.sectionTitles;
    var r := prev + [added];
    forall i | 0 <= i < |r|
      ensures TitleIndex(titles, r[i].title) < k
      ensures r[i].contacts == Bucket(col, sorted, TitleIndex(titles, r[i].title))
    {
      if i < |prev| {
        assert r[i] == prev[i];
      } else {
        assert r[i] == added;
      }
    }
    forall i, j | 0 <= i < j < |r|
      ensures TitleIndex(titles, r[i].title) < TitleIndex(titles, r[j].title)
    {
      assert r[i] == prev[i];
      if j == |prev| {
        assert r[j] == added;
      } else {
        assert r[j] == prev[j];
      }
    }
  }

  /** Adding title `k - 1` appends exactly its bucket to the flattened rows. */
  lemma FlattenSectionsStep(col: Collation, sorted: seq<Contact>, k: nat)
    requires 0 < k <= |col.sectionTitles|
    ensures Flatten(SectionsUpTo(col, sorted, k))
         == Flatten(SectionsUpTo(col, sorted, k - 1)) + Bucket(col, sorted, k - 1)
  {
    var prev := SectionsUpTo(col, sorted, k - 1);
    var r := SectionsUpTo(col, sorted, k);
    var bucket := Bucket(col, sorted, k - 1);
    if bucket == [] {
      assert r == prev;
      assert Flatten(prev) + bucket == Flatten(prev);
    } else {
      assert r == prev + [Section(col.sectionTitles[k - 1], bucket)];
      assert r[..|r| - 1] == prev;
    }
  }

  /** The buckets of the first `k` titles, one after the other. */
  ghost function BucketsBelow(col: Collation, s: seq<Contact>, k: nat): seq<Contact> {
    if k == 0 then [] else BucketsBelow(col, s, k - 1) + Bucket(col, s, k - 1)
  }

  /** The sections of the first `k` titles, flattened, are their buckets. */
  lemma {:induction false} FlattenSectionsUpTo(col: Collation, sorted: seq<Contact>, k: nat)
    requires k <= |col.sectionTitles|
    ensures Flatten(SectionsUpTo(col, sorted, k)) == BucketsBelow(col, sorted, k)
  {
    if k > 0 {
      FlattenSectionsUpTo(col, sorted, k - 1);
      FlattenSectionsStep(col, sorted, k);
    }
  }

  /** The buckets of the first `k` titles hold every occurrence of the
    * contacts whose title is among them, and nothing else. */
  lemma {:induction false} BucketsBelowCount(col: Collation, s: seq<Contact>, k: nat, x: Contact)
    ensures Occurrences(BucketsBelow(col, s, k), x) == if col.sectionFor(x) < k then Occurrences(s, x) else 0
  {
    if k > 0 {
      BucketsBelowCount(col, s, k - 1, x);
      BucketCount(col, s, k - 1, x);
      OccurrencesAppend(BucketsBelow(col, s, k - 1), Bucket(col, s, k - 1), x);
    }
  }

  lemma {:induction false} TotalRowsFlatten(secs: seq<Section>)
    ensures TotalRows(secs) == |Flatten(secs)|
  {
    if secs != [] {
      TotalRowsFlatten(secs[..|secs| - 1]);
    }
  }

  /** A contact of any section is one of the flattened contacts. */
  lemma {:induction false} InFlatten(secs: seq<Section>, i: nat, x: Contact)
    requires i < |secs| && x in secs[i].contacts
    ensures x in Flatten(secs)
  {
    if i < |secs| - 1 {
      InFlatten(secs[..|secs| - 1], i, x);
    }
  }

  /** `x` is a row of some section exactly when it is among the flattened
    * rows. */
  lemma {:induction false} ListedFlatten(secs: seq<Section>, x: Contact)
    ensures Listed(secs, x) <==> x in Flatten(secs)
  {
    if secs != [] {
      var init := secs[..|secs| - 1];
      ListedFlatten(init, x);
      if Listed(secs, x) {
        var i :| 0 <= i < |secs| && x in secs[i].contacts;
        if i < |init| {
          assert init[i] == secs[i];
        }
      }
      if x in Flatten(init) {
        var i :| 0 <= i < |init| && x in init[i].contacts;
        assert secs[i] == init[i];
      }
    }
  }

  /** What `sortSections` guarantees about `sections`: no section is empty;
    * the titles follow the collation's title order, so none repeats; each
    * section holds exactly the contacts the collation puts under its title,
    * in sorted order; and together the sections hold every contact exactly
    * once, so their row counts add up to the number of contacts. */
  lemma SectionedInvariants(col: Collation, contacts: seq<Contact>)
    requires col.Valid()
    ensures var secs := Sectioned(col, contacts);
      var titles := col.sectionTitles;
      && (forall i :: 0 <= i < |secs| ==> secs[i].contacts != [])
      && (forall i, j :: 0 <= i < j < |secs| ==>
            TitleIndex(titles, secs[i].title) < TitleIndex(titles, secs[j].title) &&
            secs[i].title != secs[j].title)
      && (forall i :: 0 <= i < |secs| ==>
            TitleIndex(titles, secs[i].title) < |titles| &&
            secs[i].contacts == Bucket(col, col.sortedArray(contacts), TitleIndex(titles, secs[i].title)))
      && (forall i, x :: 0 <= i < |secs| && x in secs[i].contacts ==> titles[col.sectionFor(x)] == secs[i].title)
      && multiset(Flatten(secs)) == multiset(contacts)
      && TotalRows(secs) == |contacts|
  {
    var sorted := col.sortedArray(contacts);
    SectionsUpToNonEmpty(col, sorted, |col.sectionTitles|);
    SectionsUpToShape(col, sorted, |col.sectionTitles|);
    SectionTitlesFollowBuckets(col, sorted);
    SectionsPermuteSorted(col, sorted);
  }

  /** Titles of the full sectioning are distinct, and each contact sits under
    * the title of its own section. */
  lemma SectionTitlesFollowBuckets(col: Collation, sorted: seq<Contact>)
    requires col.Valid()
    ensures var secs := SectionsUpTo(col, sorted, |col.sectionTitles|);
      var titles := col.sectionTitles;
      && (forall i, j :: 0 <= i < j < |secs| ==> secs[i].title != secs[j].title)
      && (forall i, x :: 0 <= i < |secs| && x in secs[i].contacts ==> titles[col.sectionFor(x)] == secs[i].title)
  {
    var titles := col.sectionTitles;
    var secs := SectionsUpTo(col, sorted, |titles|);
    SectionsUpToShape(col, sorted, |titles|);
    forall i, j | 0 <= i < j < |secs|
      ensures secs[i].title != secs[j].title
    {
      var ti := TitleIndex(titles, secs[i].title);
      var tj := TitleIndex(titles, secs[j].title);
      assert ti < tj < |titles|;
      assert titles[ti] == secs[i].title && titles[tj] == secs[j].title;
    }
    forall i, x | 0 <= i < |secs| && x in secs[i].contacts
      ensures titles[col.sectionFor(x)] == secs[i].title
    {
      var ti := TitleIndex(titles, secs[i].title);
      BucketInSection(col, sorted, ti, x);
      assert titles[ti] == secs[i].title;
    }
  }

  /** The full sectioning holds every contact of `sorted` exactly once. */
  lemma SectionsPermuteSorted(col: Collation, sorted: seq<Contact>)
    requires col.Valid()
    ensures var secs := SectionsUpTo(col, sorted, |col.sectionTitles|);
      && multiset(Flatten(secs)) == multiset(sorted)
      && TotalRows(secs) == |sorted|
  {
    var titles := col.sectionTitles;
    var secs := SectionsUpTo(col, sorted, |titles|);
    var buckets := BucketsBelow(col, sorted, |titles|);
    FlattenSectionsUpTo(col, sorted, |titles|);
    forall x
      ensures Occurrences(buckets, x) == Occurrences(sorted, x)
    {
      BucketsBelowCount(col, sorted, |titles|, x);
    }
    SameOccurrences(buckets, sorted);
    TotalRowsFlatten(secs);
    assert |multiset(buckets)| == |multiset(sorted)|;
  }

  /** The contacts of a section keep the collation's sorted order. */
  lemma SectionsKeepSortedOrder(col: Collation, contacts: seq<Contact>)
    requires col.Valid()
    ensures forall i :: 0 <= i < |Sectioned(col, contacts)| ==>
      IsSubsequence(Sectioned(col, contacts)[i].contacts, col.sortedArray(contacts))
  {
    var secs := Sectioned(col, contacts);
    SectionedInvariants(col, contacts);
    forall i | 0 <= i < |secs|
      ensures IsSubsequence(secs[i].contacts, col.sortedArray(contacts))
    {
      BucketKeepsOrder(col, col.sortedArray(contacts), TitleIndex(col.sectionTitles, secs[i].title));
    }
  }

  /** Every contact is shown in some section, and nothing else is. */
  lemma SectionedListsExactly(col: Collation, contacts: seq<Contact>, x: Contact)
    requires col.Valid()
    ensures Listed(Sectioned(col, contacts), x) <==> x in contacts
  {
    var secs := Sectioned(col, contacts);
    SectionedInvariants(col, contacts);
    ListedFlatten(secs, x);
    assert x in Flatten(secs) <==> x in multiset(Flatten(secs));
    assert x in contacts <==> x in multiset(contacts);
  }

  /** Every section carries one of the collation's titles. */
  lemma SectionedTitles(col: Collation, contacts: seq<Contact>)
    requires col.Valid()
    ensures forall i :: 0 <= i < |Sectioned(col, contacts)| ==> Sectioned(col, contacts)[i].title in col.sectionTitles
  {
    var secs := Sectioned(col, contacts);
    SectionedInvariants(col, contacts);
    forall i | 0 <= i < |secs|
      ensures secs[i].title in col.sectionTitles
    {
      assert col.sectionTitles[TitleIndex(col.sectionTitles, secs[i].title)] == secs[i].title;
    }
  }

  /** No contacts, no sections; and the other way round. */
  lemma SectionedEmpty(col: Collation, contacts: seq<Contact>)
    requires col.Valid()
    ensures Sectioned(col, contacts) == [] <==> contacts == []
    ensures |Sectioned(col, contacts)| <= |contacts|
  {
    var secs := Sectioned(col, contacts);
    SectionedInvariants(col, contacts);
    SectionCountBound(secs);
    if secs != [] {
      InFlatten(secs, 0, secs[0].contacts[0]);
      assert secs[0].contacts[0] in multiset(contacts);
    }
  }

  lemma {:induction false} SectionCountBound(secs: seq<Section>)
    requires forall i :: 0 <= i < |secs| ==> secs[i].contacts != []
    ensures |secs| <= TotalRows(secs)
  {
    if secs != [] {
      SectionCountBound(secs[..|secs| - 1]);
    }
  }

  /** `firstIndex(where: { $0.title == title })`. */
  function FirstTitled(secs: seq<Section>, title: string): (r: Option<nat>)
    ensures r.None? <==> forall i :: 0 <= i < |secs| ==> secs[i].title != title
    ensures r.Some? ==>
      r.value < |secs| && secs[r.value].title == title &&
      forall j :: 0 <= j < r.value ==> secs[j].title != title
  {
    if secs == [] then None
    else if secs[0].title == title then Some(0)
    else match FirstTitled(secs[1..], title)
      case None => None
      case Some(i) => Some(i + 1)
  }

  /** No section has more rows than all sections together. */
  lemma {:induction false} SectionRowsBound(secs: seq<Section>, i: nat)
    requires i < |secs|
    ensures |secs[i].contacts| <= TotalRows(secs)
  {
    if i < |secs| - 1 {
      SectionRowsBound(secs[..|secs| - 1], i);
    }
  }

  // ---------------------------------------------------------------------------
  // Search filter (Section.filtered, ContactsListModel.swift:102-105)

  /** `searchableStrings.containsAll(elements: searchTerms)`: every term is one
    * of the contact's tokens (whole tokens, not substrings). */
  predicate Matches(searchable: Contact -> set<string>, c: Contact, terms: seq<string>) {
    forall i :: 0 <= i < |terms| ==> terms[i] in searchable(c)
  }

  /** `contacts.filter { … }`: the matching contacts, in their order. */
  function FilterContacts(contacts: seq<Contact>, searchable: Contact -> set<string>, terms: seq<string>): (r: seq<Contact>)
    ensures IsSubsequence(r, contacts)
    ensures forall x :: x in r <==> x in contacts && Matches(searchable, x, terms)
  {
    if contacts == [] then []
    else
      var rest := FilterContacts(contacts[1..], searchable, terms);
      assert forall x :: x in contacts <==> x == contacts[0] || x in contacts[1..];
      if Matches(searchable, contacts[0], terms) then [contacts[0]] + rest
      else
        SubsequenceOfTail(rest, contacts);
        rest
  }

  lemma SubsequenceOfTail<T>(a: seq<T>, b: seq<T>)
    requires b != [] && IsSubsequence(a, b[1..])
    ensures IsSubsequence(a, b)
  {
    if a != [] && a[0] == b[0] {
      SubsequenceDropFirst(a, b[1..]);
    }
  }

  lemma {:induction false} SubsequenceDropFirst<T>(a: seq<T>, b: seq<T>)
    requires a != [] && IsSubsequence(a, b)
    ensures IsSubsequence(a[1..], b)
  {
    if b != [] {
      if a[0] == b[0] {
        if a[1..] != [] {
          SubsequenceDropFirst(a[1..], b[1..]);
          SubsequenceOfTail(a[1..], b);
        }
      } else {
        SubsequenceDropFirst(a, b[1..]);
        if a[1..] != [] {
          SubsequenceOfTail(a[1..], b);
        }
      }
    }
  }

  /** `Section.filtered(by:)`: the section narrowed to its matching contacts,
    * or nothing when none match. */
  function Filtered(section: Section, searchable: Contact -> set<string>, terms: seq<string>): (r: Option<Section>)
    ensures r.None? <==> forall x :: x in section.contacts ==> !Matches(searchable, x, terms)
    ensures r.Some? ==>
      && r.value.title == section.title
      && r.value.contacts != []
      && IsSubsequence(r.value.contacts, section.contacts)
      && forall x :: x in r.value.contacts <==> x in section.contacts && Matches(searchable, x, terms)
  {
    var kept := FilterContacts(section.contacts, searchable, terms);
    assert kept != [] ==> kept[0] in kept;
    MakeSection(section.title, kept)
  }

  /** `sections.compactMap { $0.filtered(by: searchTerms) }`. */
  function FilterSections(secs: seq<Section>, searchable: Contact -> set<string>, terms: seq<string>): (r: seq<Section>)
    ensures forall i :: 0 <= i < |r| ==> r[i].contacts != []
    ensures |r| <= |secs|
  {
    if secs == [] then []
    else
      (match Filtered(secs[0], searchable, terms)
       case Some(section) => [section]
       case None => []) + FilterSections(secs[1..], searchable, terms)
  }

  /** Every filtered section is the filtered form of a section with the same
    * title. */
  lemma {:induction false} FilteredSectionsOrigin(secs: seq<Section>, searchable: Contact -> set<string>, terms: seq<string>)
    ensures forall i :: 0 <= i < |FilterSections(secs, searchable, terms)| ==>
      exists j :: 0 <= j < |secs| && Filtered(secs[j], searchable, terms) == Some(FilterSections(secs, searchable, terms)[i])
  {
    if secs != [] {
      var tail := secs[1..];
      FilteredSectionsOrigin(tail, searchable, terms);
      var r := FilterSections(secs, searchable, terms);
      var rest := FilterSections(tail, searchable, terms);
      var skip := if Filtered(secs[0], searchable, terms).Some? then 1 else 0;
      assert r == (if skip == 1 then [Filtered(secs[0], searchable, terms).value] else []) + rest;
      forall i | 0 <= i < |r|
        ensures exists j :: 0 <= j < |secs| && Filtered(secs[j], searchable, terms) == Some(r[i])
      {
        if i < skip {
          assert Filtered(secs[0], searchable, terms) == Some(r[i]);
        } else {
          assert r[i] == rest[i - skip];
          assert exists j :: 0 <= j < |tail| && Filtered(tail[j], searchable, terms) == Some(rest[i - skip]);
          var j :| 0 <= j < |tail| && Filtered(tail[j], searchable, terms) == Some(rest[i - skip]);
          assert tail[j] == secs[j + 1];
          assert Filtered(secs[j + 1], searchable, terms) == Some(r[i]);
        }
      }
      assert forall i :: 0 <= i < |r| ==> exists j :: 0 <= j < |secs| && Filtered(secs[j], searchable, terms) == Some(r[i]);
    } else {
      assert FilterSections(secs, searchable, terms) == [];
    }
  }

  /** `x` is a row of one of the sections. */
  predicate Listed(secs: seq<Section>, x: Contact) {
    exists i :: 0 <= i < |secs| && x in secs[i].contacts
  }

  lemma ListedCons(secs: seq<Section>, x: Contact)
    requires secs != []
    ensures Listed(secs, x) <==> x in secs[0].contacts || Listed(secs[1..], x)
  {
    if Listed(secs, x) && x !in secs[0].contacts {
      var i :| 0 <= i < |secs| && x in secs[i].contacts;
      assert secs[1..][i - 1] == secs[i];
    }
    if Listed(secs[1..], x) {
      var i :| 0 <= i < |secs[1..]| && x in secs[1..][i].contacts;
      assert secs[i + 1] == secs[1..][i];
    }
  }

  /** The search shows exactly the listed contacts that match every term. */
  lemma {:induction false} FilterSectionsContents(secs: seq<Section>, searchable: Contact -> set<string>, terms: seq<string>, x: Contact)
    ensures Listed(FilterSections(secs, searchable, terms), x) <==> Listed(secs, x) && Matches(searchable, x, terms)
  {
    if secs != [] {
      FilterSectionsContents(secs[1..], searchable, terms, x);
      ListedCons(secs, x);
      var r := FilterSections(secs, searchable, terms);
      var rest := FilterSections(secs[1..], searchable, terms);
      match Filtered(secs[0], searchable, terms)
      case None =>
        assert r == rest;
      case Some(section) =>
        assert r == [section] + rest;
        assert r[1..] == rest;
        ListedCons(r, x);
    }
  }

  /** Filtering keeps titles, so it draws them from the same titles. */
  lemma {:induction false} FilterSectionsTitles(secs: seq<Section>, searchable: Contact -> set<string>, terms: seq<string>, titles: seq<string>)
    requires forall i :: 0 <= i < |secs| ==> secs[i].title in titles
    ensures forall i :: 0 <= i < |FilterSections(secs, searchable, terms)| ==>
      FilterSections(secs, searchable, terms)[i].title in titles
  {
    if secs != [] {
      assert forall i :: 0 <= i < |secs[1..]| ==> secs[1..][i] == secs[i + 1];
      FilterSectionsTitles(secs[1..], searchable, terms, titles);
    }
  }

  /** With no search terms every contact matches, so the filtered view is
    * the unfiltered one. */
  lemma {:induction false} FilterContactsNoTerms(contacts: seq<Contact>, searchable: Contact -> set<string>)
    ensures FilterContacts(contacts, searchable, []) == contacts
  {
    if contacts != [] {
      FilterContactsNoTerms(contacts[1..], searchable);
    }
  }

  lemma {:induction false} FilterSectionsNoTerms(secs: seq<Section>, searchable: Contact -> set<string>)
    requires forall i :: 0 <= i < |secs| ==> secs[i].contacts != []
    ensures FilterSections(secs, searchable, []) == secs
  {
    if secs != [] {
      FilterContactsNoTerms(secs[0].contacts, searchable);
      FilterSectionsNoTerms(secs[1..], searchable);
    }
  }

  /** Matching is on whole tokens: "ali" does not find a contact whose tokens
    * are "alice" and "smith", while "alice smith" does. */
  lemma ExactTokenMatching(c: Contact)
    ensures var searchable := (x: Contact) => {"alice", "smith"};
      && FilterContacts([c], searchable, ["ali"]) == []
      && FilterContacts([c], searchable, ["alice", "smith"]) == [c]
  {
    var searchable := (x: Contact) => {"alice", "smith"};
    assert "ali" !in searchable(c) by {
      assert |"ali"| != |"alice"| && |"ali"| != |"smith"|;
    }
    assert ["ali"][0] == "ali";
    assert !Matches(searchable, c, ["ali"]);
    assert Matches(searchable, c, ["alice", "smith"]);
  }
}
