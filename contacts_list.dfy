/**
 * `ContactsListModel` (Contacts/List/ContactsListModel.swift): the list
 * screen's model. It owns the contact list, keeps `sections` in step with it
 * (the `didSet` on `contacts` runs `sortSections` after every assignment) and
 * holds the sections the last search narrowed the list to.
 */
module ContactsList {
  import opened Wrappers
  import opened Text
  import opened ObjectLibrary
  import opened SearchText
  import opened Sectioning

  // ---------------------------------------------------------------------------
  // The contact list (add, remove)

  /** No two entries share an id. */
  predicate DistinctIds(s: seq<Contact>) {
    forall i, j :: 0 <= i < j < |s| ==> s[i].id != s[j].id
  }

  /** Some entry carries `id`. */
  predicate HasId(s: seq<Contact>, id: ContactId) {
    exists i :: 0 <= i < |s| && s[i].id == id
  }

  /** `firstIndex(where: { $0.id == id })`. */
  function IndexOfId(s: seq<Contact>, id: ContactId): (r: Option<nat>)
    ensures r.None? <==> !HasId(s, id)
    ensures r.Some? ==>
      r.value < |s| && s[r.value].id == id &&
      forall j :: 0 <= j < r.value ==> s[j].id != id
  {
    if s == [] then None
    else if s[0].id == id then Some(0)
    else
      match IndexOfId(s[1..], id)
      case None =>
        assert forall j :: 1 <= j < |s| ==> s[j] == s[1..][j - 1];
        None
      case Some(i) => Some(i + 1)
  }

  /** `add(_:)` on the list: a contact whose id is listed replaces that entry
    * where it stands; a contact with a new id goes at the end. */
  function Upsert(s: seq<Contact>, c: Contact): (r: seq<Contact>)
    ensures c in r
    ensures HasId(s, c.id) ==> |r| == |s|
    ensures !HasId(s, c.id) ==> r == s + [c]
    ensures forall i :: 0 <= i < |s| && s[i].id != c.id ==> r[i] == s[i]
    ensures forall x :: x in r ==> x == c || x in s
    ensures DistinctIds(s) ==> DistinctIds(r) && forall i :: 0 <= i < |r| && r[i].id == c.id ==> r[i] == c
  {
    match IndexOfId(s, c.id)
    case Some(i) =>
      assert s[i := c][i] == c;
      s[i := c]
    case None =>
      assert (s + [c])[|s|] == c;
      s + [c]
  }

  /** `remove(_:)` on the list: the first entry with the id goes, and with it
    * the only one when ids are distinct; the others keep their order; an
    * unknown id changes nothing. */
  function Delete(s: seq<Contact>, id: ContactId): (r: seq<Contact>)
    ensures !HasId(s, id) ==> r == s
    ensures HasId(s, id) ==> |r| == |s| - 1
    ensures HasId(s, id) ==>
      var i := IndexOfId(s, id).value;
      r[..i] == s[..i] && r[i..] == s[i + 1..]
    ensures forall x :: x in r ==> x in s
    ensures forall x :: x in s && x.id != id ==> x in r
    ensures DistinctIds(s) ==> DistinctIds(r) && !HasId(r, id)
  {
    match IndexOfId(s, id)
    case Some(i) =>
      RemoveAt(s, i);
      s[..i] + s[i + 1..]
    case None => s
  }

  /** Taking out entry `i` keeps every other entry, in order. */
  lemma RemoveAt(s: seq<Contact>, i: nat)
    requires i < |s|
    ensures var r := s[..i] + s[i + 1..];
      |r| == |s| - 1 && forall j :: 0 <= j < |r| ==> r[j] == s[if j < i then j else j + 1]
    ensures (s[..i] + s[i + 1..])[..i] == s[..i] && (s[..i] + s[i + 1..])[i..] == s[i + 1..]
    ensures forall x :: x in s[..i] + s[i + 1..] ==> x in s
    ensures forall x :: x in s && x != s[i] ==> x in s[..i] + s[i + 1..]
    ensures DistinctIds(s) ==>
      DistinctIds(s[..i] + s[i + 1..]) && !HasId(s[..i] + s[i + 1..], s[i].id)
  {
    var r := s[..i] + s[i + 1..];
    assert forall j :: 0 <= j < |r| ==> r[j] == s[if j < i then j else j + 1];
    forall x | x in s && x != s[i]
      ensures x in r
    {
      var j :| 0 <= j < |s| && s[j] == x;
      if j < i {
        assert r[j] == x;
      } else {
        assert r[j - 1] == x;
      }
    }
    if DistinctIds(s) {
      forall a, b | 0 <= a < b < |r|
        ensures r[a].id != r[b].id
      {
        assert r[a] == s[if a < i then a else a + 1];
        assert r[b] == s[if b < i then b else b + 1];
      }
      forall j | 0 <= j < |r|
        ensures r[j].id != s[i].id
      {
        assert r[j] == s[if j < i then j else j + 1];
      }
    }
  }

  /** Adding a contact with a new id and removing it again gives back the
    * list as it was. */
  lemma AddThenRemove(s: seq<Contact>, c: Contact)
    requires !HasId(s, c.id)
    ensures Delete(Upsert(s, c), c.id) == s
  {
    var r := s + [c];
    assert r[|s|].id == c.id;
    assert IndexOfId(r, c.id) == Some(|s|);
    assert r[..|s|] == s;
  }

  /** Saving the same contact twice is saving it once. */
  lemma AddIdempotent(s: seq<Contact>, c: Contact)
    ensures Upsert(Upsert(s, c), c) == Upsert(s, c)
  {
    var r := Upsert(s, c);
    match IndexOfId(s, c.id)
    case Some(i) =>
      assert r[i] == c;
      assert forall j :: 0 <= j < i ==> r[j] == s[j];
      assert IndexOfId(r, c.id) == Some(i);
    case None =>
      assert r[|s|].id == c.id;
      assert IndexOfId(r, c.id) == Some(|s|);
  }

  // ---------------------------------------------------------------------------
  // Loading (loadContacts, ContactsListModel.swift:112-136)

  /** `CodableAddress`. */
  datatype CodableAddress = CodableAddress(street: string, apartment: string, city: string, state: string, zipcode: string)

  /** `CodableContact`: one record of the bundled `contacts.json`. */
  datatype CodableContact = CodableContact(
    firstName: string, lastName: string, phone: string, email: string,
    address: CodableAddress, emergency: string)

  /** The contact a record loads as: every field holds the record's value. */
  function FromCodable(id: ContactId, rec: CodableContact): (r: Contact)
    ensures r.id == id
    ensures r.Value(FirstName) == Some(rec.firstName) && r.Value(LastName) == Some(rec.lastName)
    ensures r.Value(Phone) == Some(rec.phone) && r.Value(Email) == Some(rec.email)
    ensures r.Value(Street) == Some(rec.address.street) && r.Value(Apartment) == Some(rec.address.apartment)
    ensures r.Value(City) == Some(rec.address.city) && r.Value(State) == Some(rec.address.state)
    ensures r.Value(Zipcode) == Some(rec.address.zipcode) && r.Value(Emergency) == Some(rec.emergency)
  {
    Contact(id, map[
      FirstName := rec.firstName, LastName := rec.lastName, Phone := rec.phone, Email := rec.email,
      Street := rec.address.street, Apartment := rec.address.apartment, City := rec.address.city,
      State := rec.address.state, Zipcode := rec.address.zipcode, Emergency := rec.emergency])
  }

  /** The loop body of `loadContacts`: a fresh `Contact.instance()` with the
    * record's values copied in field by field is that contact. */
  lemma CopiesGiveFromCodable(id: ContactId, rec: CodableContact)
    ensures Instance(id)
      .Copy(rec.firstName, FirstName)
      .Copy(rec.lastName, LastName)
      .Copy(rec.phone, Phone)
      .Copy(rec.email, Email)
      .Copy(rec.address.street, Street)
      .Copy(rec.address.apartment, Apartment)
      .Copy(rec.address.city, City)
      .Copy(rec.address.state, State)
      .Copy(rec.address.zipcode, Zipcode)
      .Copy(rec.emergency, Emergency)
      == FromCodable(id, rec)
  {
  }

  /** Nothing of a record is lost: two records that load as the same contact
    * are the same record. */
  lemma FromCodableInjective(id: ContactId, a: CodableContact, b: CodableContact)
    requires FromCodable(id, a) == FromCodable(id, b)
    ensures a == b
  {
    var ca, cb := FromCodable(id, a), FromCodable(id, b);
    assert ca.Value(Street) == cb.Value(Street);
    assert ca.Value(Emergency) == cb.Value(Emergency);
  }

  /** The records as contacts; `ids(i)` is the identifier the `i`-th
    * `Contact.instance()` generates. */
  function Converted(records: seq<CodableContact>, ids: nat -> ContactId): (r: seq<Contact>)
    ensures |r| == |records|
    ensures forall i :: 0 <= i < |r| ==> r[i].id == ids(i)
  {
    seq(|records|, i requires 0 <= i < |records| => FromCodable(ids(i), records[i]))
  }

  /** `add` applied to each of `cs` in turn. */
  function AddAll(s: seq<Contact>, cs: seq<Contact>): (r: seq<Contact>)
    ensures forall x :: x in r ==> x in s || x in cs
    ensures DistinctIds(s) ==> DistinctIds(r)
  {
    if cs == [] then s
    else
      var r := Upsert(AddAll(s, cs[..|cs| - 1]), cs[|cs| - 1]);
      assert forall x :: x in cs[..|cs| - 1] ==> x in cs;
      r
  }

  lemma AddAllPrefixStep(s: seq<Contact>, cs: seq<Contact>, i: nat)
    requires i < |cs|
    ensures AddAll(s, cs[..i + 1]) == Upsert(AddAll(s, cs[..i]), cs[i])
  {
    assert cs[..i + 1][..i] == cs[..i];
  }

  /** Contacts with ids new to the list and to each other are appended in
    * their order. */
  lemma {:induction false} AddAllFresh(s: seq<Contact>, cs: seq<Contact>)
    requires DistinctIds(s + cs)
    ensures AddAll(s, cs) == s + cs
  {
    if cs != [] {
      var init := cs[..|cs| - 1];
      var last := cs[|cs| - 1];
      assert s + cs == (s + init) + [last];
      assert DistinctIds(s + init) by {
        forall i, j | 0 <= i < j < |s + init|
          ensures (s + init)[i].id != (s + init)[j].id
        {
          assert (s + init)[i] == (s + cs)[i] && (s + init)[j] == (s + cs)[j];
        }
      }
      AddAllFresh(s, init);
      assert !HasId(s + init, last.id) by {
        forall i | 0 <= i < |s + init|
          ensures (s + init)[i].id != last.id
        {
          assert (s + init)[i] == (s + cs)[i] && last == (s + cs)[|s + cs| - 1];
        }
      }
    }
  }

  /** With the freshly generated ids all different, loading gives exactly
    * the records, in file order. */
  lemma LoadedInFileOrder(records: seq<CodableContact>, ids: nat -> ContactId)
    requires forall i, j :: 0 <= i < j < |records| ==> ids(i) != ids(j)
    ensures AddAll([], Converted(records, ids)) == Converted(records, ids)
  {
    var cs := Converted(records, ids);
    assert [] + cs == cs;
    AddAllFresh([], cs);
  }

  // ---------------------------------------------------------------------------
  // The model object

  /** The `reduce(into:)` of `sortSections()`: files each sorted contact
    * into the bucket of its section. */
  method FillBuckets(collation: Collation, sorted: seq<Contact>) returns (buckets: seq<seq<Contact>>)
    requires collation.Valid()
    ensures |buckets| == |collation.sectionTitles|
    ensures forall k :: 0 <= k < |buckets| ==> buckets[k] == Bucket(collation, sorted, k)
  {
    var n := |collation.sectionTitles|;
    buckets := seq(n, _ => []);
    var i := 0;
    while i < |sorted|
      invariant 0 <= i <= |sorted|
      invariant |buckets| == n
      invariant forall k :: 0 <= k < n ==> buckets[k] == Bucket(collation, sorted[..i], k)
    {
      var contact := sorted[i];
      var index := collation.sectionFor(contact);
      assert sorted[..i + 1] == sorted[..i] + [contact];
      forall k | 0 <= k < n
        ensures Bucket(collation, sorted[..i + 1], k)
             == Bucket(collation, sorted[..i], k) + if index == k then [contact] else []
      {
        BucketSnoc(collation, sorted[..i], contact, k);
      }
      buckets := buckets[index := buckets[index] + [contact]];
      i := i + 1;
    }
    assert sorted[..i] == sorted;
  }

  /** The `enumerated().compactMap` of `sortSections()`: keeps the non-empty
    * buckets, each under its title. */
  method CompactBuckets(collation: Collation, sorted: seq<Contact>, buckets: seq<seq<Contact>>)
    returns (result: seq<Section>)
    requires |buckets| == |collation.sectionTitles|
    requires forall k :: 0 <= k < |buckets| ==> buckets[k] == Bucket(collation, sorted, k)
    ensures result == SectionsUpTo(collation, sorted, |collation.sectionTitles|)
  {
    var n := |collation.sectionTitles|;
    result := [];
    var k := 0;
    while k < n
      invariant 0 <= k <= n
      invariant result == SectionsUpTo(collation, sorted, k)
    {
      var section := MakeSection(collation.sectionTitles[k], buckets[k]);
      SectionsUpToStep(collation, sorted, k, buckets[k]);
      if section.Some? {
        result := result + [section.value];
      }
      k := k + 1;
    }
  }

  class ContactsListModel {
    const collation: Collation
    const platform: Platform
    /** `Contact.searchableStrings`, which the ObjectLibrary framework defines. */
    const searchableStrings: Contact -> set<string>
    var contacts: seq<Contact>
    var sections: seq<Section>
    var filteredSections: seq<Section>

    /** `sections` always reflects `contacts`; ids stay distinct because
      * `add` replaces a contact it already has; a filtered section is never
      * empty and carries one of the collation's titles. */
    ghost predicate Valid()
      reads this
    {
      && collation.Valid()
      && DistinctIds(contacts)
      && sections == Sectioned(collation, contacts)
      && (forall i :: 0 <= i < |filteredSections| ==>
            filteredSections[i].contacts != [] && filteredSections[i].title in collation.sectionTitles)
    }

    /** `init()`: load the bundled contacts. `decoded` is the decoded file, or
      * `None` when the file is missing or does not decode, in which case the
      * error is only printed and the list stays empty. */
    constructor(collation: Collation, platform: Platform, searchableStrings: Contact -> set<string>,
                decoded: Option<seq<CodableContact>>, ids: nat -> ContactId)
      requires collation.Valid()
      ensures Valid()
      ensures this.collation == collation && this.platform == platform
      ensures this.searchableStrings == searchableStrings
      ensures decoded.None? ==> contacts == []
      ensures decoded.Some? ==> contacts == AddAll([], Converted(decoded.value, ids))
      ensures filteredSections == []
    {
      this.collation := collation;
      this.platform := platform;
      this.searchableStrings := searchableStrings;
      contacts := [];
      sections := [];
      filteredSections := [];
      new;
      SectionedEmpty(collation, []);
      if decoded.Some? {
        LoadContacts(decoded.value, ids);
      }
    }

    /** `loadContacts()` once the file has decoded: every record is turned
      * into a new contact and added. */
    method LoadContacts(records: seq<CodableContact>, ids: nat -> ContactId)
      requires Valid()
      modifies this`contacts, this`sections
      ensures Valid()
      ensures contacts == AddAll(old(contacts), Converted(records, ids))
    {
      var converted := Converted(records, ids);
      var i := 0;
      while i < |records|
        invariant 0 <= i <= |records|
        invariant Valid()
        invariant contacts == AddAll(old(contacts), converted[..i])
      {
        var contact := converted[i];
        AddAllPrefixStep(old(contacts), converted, i);
        Add(contact);
        i := i + 1;
      }
      assert converted[..|records|] == converted;
    }

    /** `add(_:)`. */
    method Add(contact: Contact)
      requires Valid()
      modifies this`contacts, this`sections
      ensures Valid()
      ensures contacts == Upsert(old(contacts), contact)
    {
      var index := IndexOfId(contacts, contact.id);
      if index.Some? {
        contacts := contacts[index.value := contact];
      } else {
        contacts := contacts + [contact];
      }
      SortSections();
    }

    /** `remove(_:)`. */
    method Remove(contact: Contact)
      requires Valid()
      modifies this`contacts, this`sections
      ensures Valid()
      ensures contacts == Delete(old(contacts), contact.id)
    {
      var index := IndexOfId(contacts, contact.id);
      if index.Some? {
        contacts := contacts[..index.value] + contacts[index.value + 1..];
        SortSections();
      }
    }

    /** `sortSections()`: sort, drop each contact into the bucket of its
      * section, then keep the non-empty buckets under their titles. */
    method SortSections()
      requires collation.Valid()
      modifies this`sections
      ensures sections == Sectioned(collation, contacts)
    {
      var sorted := collation.sortedArray(contacts);
      var buckets := FillBuckets(collation, sorted);
      sections := CompactBuckets(collation, sorted, buckets);
    }

    /** `filterContentForSearchText(_:)`. */
    method FilterContentForSearchText(searchText: string)
      requires Valid()
      modifies this`filteredSections
      ensures Valid()
      ensures filteredSections == FilterSections(sections, searchableStrings, SearchTerms(platform, searchText))
    {
      var searchTerms := SearchTerms(platform, searchText);
      var filtered := FilterSections(sections, searchableStrings, searchTerms);
      SectionedTitles(collation, contacts);
      FilterSectionsTitles(sections, searchableStrings, searchTerms, collation.sectionTitles);
      filteredSections := filtered;
    }

    /** `sections(for:)`. */
    function SectionsFor(isFiltering: bool): seq<Section>
      reads this
    {
      if isFiltering then filteredSections else sections
    }

    /** `sectionIndexTitles`: the collation's index titles, passed through. */
    function SectionIndexTitles(): seq<string>
      reads this
    {
      collation.sectionIndexTitles
    }

    /** `contact(for:isFiltering:)`: the row's contact; an unfiltered row is
      * one of the contacts and sits under the title the collation gives it. */
    function ContactAt(section: nat, row: nat, isFiltering: bool): (r: Contact)
      reads this
      requires section < |SectionsFor(isFiltering)| && row < |SectionsFor(isFiltering)[section].contacts|
      ensures Valid() ==> r in SectionsFor(isFiltering)[section].contacts
      ensures Valid() && !isFiltering ==>
        r in contacts && collation.sectionTitles[collation.sectionFor(r)] == sections[section].title
    {
      var r := SectionsFor(isFiltering)[section].contacts[row];
      assert Valid() && !isFiltering ==>
        r in contacts && collation.sectionTitles[collation.sectionFor(r)] == sections[section].title by {
        if Valid() && !isFiltering {
          SectionedInvariants(collation, contacts);
          assert Listed(sections, r);
          SectionedListsExactly(collation, contacts, r);
        }
      }
      r
    }

    /** `numberOfSections(isFiltering:)`: without a search there are sections
      * exactly when there are contacts, and never more sections than
      * contacts. */
    function NumberOfSections(isFiltering: bool): (r: nat)
      reads this
      ensures Valid() && !isFiltering ==> (r == 0 <==> contacts == []) && r <= |contacts|
    {
      var r := |SectionsFor(isFiltering)|;
      assert Valid() && !isFiltering ==> (r == 0 <==> contacts == []) && r <= |contacts| by {
        if Valid() && !isFiltering {
          SectionedEmpty(collation, contacts);
        }
      }
      r
    }

    /** `numberOfRows(in:isFiltering:)`: no section shown is empty. */
    function NumberOfRows(section: nat, isFiltering: bool): (r: nat)
      reads this
      requires section < |SectionsFor(isFiltering)|
      ensures Valid() ==> r >= 1
      ensures Valid() && !isFiltering ==> r <= |contacts|
    {
      var r := |SectionsFor(isFiltering)[section].contacts|;
      assert Valid() ==> r >= 1 && (!isFiltering ==> r <= |contacts|) by {
        if Valid() && !isFiltering {
          SectionedInvariants(collation, contacts);
          SectionRowsBound(sections, section);
        }
      }
      r
    }

    /** `titleForHeader(in:isFiltering:)`: headers appear only once there are
      * more than five contacts, and then show the section's title. */
    function TitleForHeader(section: nat, isFiltering: bool): (r: Option<string>)
      reads this
      requires |contacts| > 5 ==> section < |SectionsFor(isFiltering)|
      ensures r.None? <==> |contacts| <= 5
      ensures r.Some? ==> r.value == SectionsFor(isFiltering)[section].title
      ensures Valid() && r.Some? ==> r.value in collation.sectionTitles
    {
      if |contacts| <= 5 then None
      else
        var title := SectionsFor(isFiltering)[section].title;
        assert Valid() && !isFiltering ==> title in collation.sectionTitles by {
          if Valid() && !isFiltering {
            SectionedInvariants(collation, contacts);
            assert collation.sectionTitles[TitleIndex(collation.sectionTitles, title)] == title;
          }
        }
        Some(title)
    }

    /** `section(for:index:isFiltering:)`: the first section with the title,
      * or `index` when no section has it. */
    function SectionForTitle(title: string, index: int, isFiltering: bool): (r: int)
      reads this
      ensures var secs := SectionsFor(isFiltering);
        || (0 <= r < |secs| && secs[r].title == title && forall j :: 0 <= j < r ==> secs[j].title != title)
        || (r == index && forall j :: 0 <= j < |secs| ==> secs[j].title != title)
    {
      match FirstTitled(SectionsFor(isFiltering), title)
      case Some(i) => i
      case None => index
    }
  }

  // ---------------------------------------------------------------------------
  // What the list shows

  /** A saved contact shows up in the unfiltered list, and a removed one is
    * gone from it. */
  lemma AddShowsRemoveHides(col: Collation, s: seq<Contact>, c: Contact)
    requires col.Valid()
    requires DistinctIds(s)
    ensures Listed(Sectioned(col, Upsert(s, c)), c)
    ensures forall x: Contact :: x.id == c.id ==> !Listed(Sectioned(col, Delete(s, c.id)), x)
  {
    SectionedListsExactly(col, Upsert(s, c), c);
    forall x: Contact | x.id == c.id
      ensures !Listed(Sectioned(col, Delete(s, c.id)), x)
    {
      SectionedListsExactly(col, Delete(s, c.id), x);
    }
  }

  /** After a search, the filtered list shows exactly the contacts that match
    * every search term. */
  lemma SearchShowsMatches(m: ContactsListModel, searchText: string, x: Contact)
    requires m.Valid()
    requires m.filteredSections == FilterSections(m.sections, m.searchableStrings, SearchTerms(m.platform, searchText))
    ensures Listed(m.filteredSections, x) <==>
      x in m.contacts && Matches(m.searchableStrings, x, SearchTerms(m.platform, searchText))
  {
    FilterSectionsContents(m.sections, m.searchableStrings, SearchTerms(m.platform, searchText), x);
    SectionedListsExactly(m.collation, m.contacts, x);
  }

  /** A search for nothing but blanks shows the whole list. */
  lemma BlankSearchShowsAll(m: ContactsListModel, searchText: string)
    requires m.Valid() && m.platform.Valid()
    requires Blank(searchText, m.platform.whitespacesAndNewlines)
    ensures FilterSections(m.sections, m.searchableStrings, SearchTerms(m.platform, searchText)) == m.sections
  {
    BlankQueryHasNoTerms(m.platform, searchText);
    SectionedInvariants(m.collation, m.contacts);
    FilterSectionsNoTerms(m.sections, m.searchableStrings);
  }

  /** Searching for "Alice Smith" (any query that lowercases to "alice smith")
    * shows exactly the listed contacts whose tokens include both "alice" and
    * "smith". */
  lemma FullNameSearch(m: ContactsListModel, searchText: string, x: Contact)
    requires m.Valid() && m.platform.Valid()
    requires m.platform.lowercased(searchText) == "alice smith"
    ensures Listed(FilterSections(m.sections, m.searchableStrings, SearchTerms(m.platform, searchText)), x) <==>
      x in m.contacts && "alice" in m.searchableStrings(x) && "smith" in m.searchableStrings(x)
  {
    var terms := ["alice", "smith"];
    TwoWordQuery(m.platform, searchText);
    FilterSectionsContents(m.sections, m.searchableStrings, terms, x);
    SectionedListsExactly(m.collation, m.contacts, x);
    assert Matches(m.searchableStrings, x, terms) <==> terms[0] in m.searchableStrings(x) && terms[1] in m.searchableStrings(x);
  }
}
