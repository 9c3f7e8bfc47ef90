# Contacts: validation, edit form and list model in Dafny

This project models the plain logic of a small iOS contacts app, written in Swift with UIKit. It covers three parts:

- **Field validation.** `InputField.isValid(value:)` has one rule per form field. It is built on the app's `String` helpers: integer parsing, space removal, and "only letters / digits / alphanumerics" checks.
- **The detail form's model.** `ContactDetailModel` holds the contact being edited and replaces it on every edit. After each edit it tells its delegate whether the contact can be saved. It also builds the state picker's option table and supplies the text, picker row and switch position the form shows.
- **The list screen's model.** `ContactsListModel` keeps the contact list: it updates or inserts by id and removes by id. After every change it re-derives the non-empty alphabetical sections. It filters the sections by search terms, and it answers the table view's questions.

Modules, one file each:

| file | module | models |
|---|---|---|
| `wrappers.dfy` | `Wrappers` | Swift's `Optional` as `Option` |
| `text.dfy` | `Text` | `Contacts/String.swift` and the Foundation facilities it uses |
| `object_library.dfy` | `ObjectLibrary` | the types the app imports from its `ObjectLibrary` framework (`InputField`, `State`, `Contact`), as far as the app relies on them |
| `input_field.dfy` | `InputFields` | `Contacts/Extensions/InputField.swift` |
| `contact_detail.dfy` | `ContactDetail` | `Contacts/Detail/ContactDetailModel.swift` |
| `search.dfy` | `SearchText` | how `filterContentForSearchText` turns the query into search terms |
| `sectioning.dfy` | `Sectioning` | `Section`, the sectioning done by `sortSections`, and `Section.filtered` |
| `contacts_list.dfy` | `ContactsList` | the class `ContactsListModel` and its list updates and loading |

Parts the code takes from the platform are passed in as values:

- Foundation's character sets, `lowercased()` and `NSString.boolValue` form a `Platform` value. `Platform.Valid()` lists the only facts about them the proofs use, for example that ASCII digits are decimal digits and that "true" reads as true.
- `UILocalizedIndexedCollation` is a `Collation` value: its section titles, the section a contact falls in, and its sort. `Collation.Valid()` says that every contact falls in a listed section, that the titles are distinct, and that sorting only reorders.
- `State.allCases` is a table of (raw value, postal abbreviation) pairs. A `State` case is its position in that table.

Both model classes keep the source's state as fields and change it in methods with `modifies` frames:

- `ContactDetailModel` keeps `contact`, `stateOptions`, and a log of the `save(isEnabled:)` calls its delegate received.
- `ContactsListModel` keeps `contacts`, `sections` and `filteredSections`. The `didSet` on `contacts` becomes a call to `SortSections` after each assignment to `contacts`.
- Loops in the source (the option table, `isValid(contact:)`, the bucket fill and the `compactMap` of `sortSections`, the loading loop) are `while` loops with invariants. Each is proved against a function that states its result.

## Model

| member | source | states |
|---|---|---|
| Text.RemoveWhiteSpaces | Contacts/String.swift:13-15 | no U+0020 is left, the result is no longer than the input, and every other character is kept with its multiplicity |
| Text.RemoveWhiteSpacesIdempotent | Contacts/String.swift:13-15 | removing spaces twice is removing them once |
| Text.RemoveWhiteSpacesKeepsOrder | Contacts/String.swift:14 | space removal works piecewise over a concatenation, so characters keep their order; a tab or a newline stays where it was |
| Text.FirstOutside | Contacts/String.swift:17-27 | `rangeOfCharacter(from: set.inverted)`: the first position whose character is outside the set, or none exactly when every character is inside |
| Text.ContainsOnlyLetters | Contacts/String.swift:17-19 | true iff every character is a letter |
| Text.ContainsOnlyDigits | Contacts/String.swift:21-23 | true iff every character is a decimal digit |
| Text.ContainsOnlyAlphanumerics | Contacts/String.swift:25-27 | true iff every character is alphanumeric |
| Text.CharacterClassInclusions | Contacts/String.swift:17-27 | only letters implies only alphanumerics, and so does only digits; all three checks hold on "" |
| Text.ParseInt | Contacts/String.swift:5-7 | `Int(self)`: a parse yields a value within 64-bit range, and only from an optional sign followed by one or more ASCII digits |
| Text.IsInt | Contacts/String.swift:5-7 | `isInt` is `Int(self) != nil`: a string is an integer exactly when `ParseInt` succeeds |
| Text.ParseIntDigits | Contacts/String.swift:5-7 | one or more ASCII digits parse to their decimal value when it is at most 2^63 - 1, and fail otherwise |
| Text.ParseIntPlus | Contacts/String.swift:5-7 | '+' followed by one or more ASCII digits parses to the digits' value when it is at most 2^63 - 1, and fails otherwise |
| Text.ParseIntMinus | Contacts/String.swift:5-7 | '-' followed by one or more ASCII digits parses to minus the digits' value when that is at least -2^63, and fails otherwise |
| Text.DigitsValueLeadingZero | Contacts/String.swift:5-7 | a leading zero does not change the value of a digit string |
| Text.ParseFormatInt | Contacts/String.swift:5-7 | the decimal form of any integer parses back to it exactly when it lies in 64-bit range; outside that range it fails |
| Text.ShortDigitStringIsInt | Contacts/String.swift:5-7 | one to eighteen ASCII digits after an optional sign always parse |
| Text.IsIntExamples | Contacts/String.swift:5-7 | "-123456", "+7" and "0042" are integers; "", "-", "+", "123 4567" and "12345a7" are not |
| Text.ParseIntValueExamples | Contacts/String.swift:5-7 | "-0" parses to 0, "+7" to 7, "-7" to -7 and "0042" to 42 |
| Text.BoolValue | Contacts/String.swift:9-11 | `(self as NSString).boolValue`, taken from the platform; `Platform.Valid()` fixes its answers on "true" and "false" |
| Text.BoolDescription | Contacts/Detail/ContactDetailViewController.swift:79 | `Bool.description`: "true" for true and "false" for false |
| Text.BoolValueDescription | Contacts/String.swift:9-11 | `boolValue` reads back the `description` of either Bool |
| ObjectLibrary.SectionsPartitionFields | Contacts/Detail/ContactDetailModel.swift:68-69 | every field occurs exactly once in `InputField.sections`, so the nested loop visits each field once |
| ObjectLibrary.StateNamed | Contacts/Extensions/InputField.swift:22 | `State(rawValue:)`: finds a case with that raw value, or none exactly when no case has it; with distinct raw values the case found is the only one |
| ObjectLibrary.Contact.Value | Contacts/Detail/ContactDetailModel.swift:44 | `value(for:)` is present exactly when the field has been set, and is then the stored value |
| ObjectLibrary.Contact.Copy | Contacts/Detail/ContactDetailModel.swift:26 | `copy(withNewValue:for:)` keeps the id, sets the field, and leaves every other field as it was |
| ObjectLibrary.Contact.IsEmpty | Contacts/Detail/ContactDetailModel.swift:67 | `isEmpty`: no field holds a non-empty value |
| ObjectLibrary.Instance | Contacts/List/ContactsListModel.swift:119 | a new contact has the given id, no field set, and is empty |
| ObjectLibrary.CopyIsolation | Contacts/List/ContactsListModel.swift:119-129 | a second write to a field wins, and writes to different fields commute |
| InputFields.IsValid | Contacts/Extensions/InputField.swift:7-28 | one if-and-only-if per field. Names need 2 or more characters. A phone needs 7 or more and must parse as an integer. An email must contain '@'. Street (3 or more), apartment (1 or more) and city (3 or more) are measured with spaces, and then every character must be a space or in the field's class. A state must equal some raw value. A zipcode must be exactly 5 decimal digits. Emergency always passes |
| InputFields.NameAndPhoneExamples | Contacts/Extensions/InputField.swift:9-12 | "Al" passes and "A" fails; "1234567" and "-123456" pass; "123456", "123 4567" and "12345a7" fail |
| InputFields.EmailExamples | Contacts/Extensions/InputField.swift:13-14 | "a@b" passes, "ab" fails |
| InputFields.AddressExamples | Contacts/Extensions/InputField.swift:15-26 | an apartment of " " passes and "" fails; "" and "--" are no state; "02134" is a zipcode, "1234" and "1234a" are not; emergency accepts every string |
| InputFields.CityRejectsDigits | Contacts/Extensions/InputField.swift:19-20 | a city containing any decimal digit is invalid |
| ContactDetail.InputText | Contacts/Detail/ContactDetailModel.swift:34-45 | `getInputText(for:)`: the state field shows the abbreviation of the stored state, or "" when the value is absent or names no state; other fields show their value or "" |
| ContactDetail.StateOptionIndex | Contacts/Detail/ContactDetailModel.swift:47-55 | `getStateOptionIndex()` is 0 exactly when the state is absent or unknown; otherwise it is one past the state's position, and that row names the stored value |
| ContactDetail.EmergencyFlag | Contacts/Detail/ContactDetailModel.swift:57-59 | `getEmergencyFlag()` is false when the field is absent; "true" reads as on and "false" as off |
| ContactDetail.ContactDetailModel.constructor | Contacts/Detail/ContactDetailModel.swift:15-23 | keeps the contact and builds `stateOptions`: row 0 is ("--", ""), row i+1 is state i's raw value and abbreviation; nothing is reported yet |
| ContactDetail.ContactDetailModel.UpdateContact | Contacts/Detail/ContactDetailModel.swift:25-28 | the contact becomes its copy with `value ?? ""` in the field, with the same id, and the delegate receives exactly whether the new contact is savable |
| ContactDetail.ContactDetailModel.UpdateSave | Contacts/Detail/ContactDetailModel.swift:30-32 | appends the savability of the current contact to the delegate's calls |
| ContactDetail.ContactDetailModel.IsValid | Contacts/Detail/ContactDetailModel.swift:65-76 | the nested loop over `InputField.sections` answers the progressive rule: false for an empty contact, otherwise true iff every present value passes its field's rule, with absent fields skipped |
| ContactDetail.SavableExamples | Contacts/Detail/ContactDetailModel.swift:65-76 | a new contact is not savable; with only first name "Al" it is; with only "A" it is not |
| ContactDetail.EditKeepsOrBlocksSaving | Contacts/Detail/ContactDetailModel.swift:65-76 | storing a valid non-empty value keeps a savable contact savable; storing an invalid value makes any contact unsavable |
| ContactDetail.ClearedNameBlocksSaving | Contacts/Detail/ContactDetailModel.swift:25-26 | a cleared text field stores "" rather than removing the value, so a cleared first name blocks saving |
| ContactDetail.PickerRoundTrip | Contacts/Detail/ContactDetailViewController.swift:270-275 | after row r is picked, the same contact preselects row r again and shows that row's abbreviation; rows past 0 store a valid state; row 0 stores "--" and blocks saving |
| ContactDetail.PreselectedRowNamesStoredState | Contacts/Detail/ContactDetailModel.swift:47-55 | the preselected row always exists, and a row past 0 names the stored state |
| ContactDetail.EmergencySwitchRoundTrip | Contacts/Detail/ContactDetailViewController.swift:79 | after the switch stores `isOn.description`, the flag read back is `isOn` |
| SearchText.LeadingIn | Contacts/List/ContactsListModel.swift:42 | the count of leading characters in the set: all of them are in the set, and the next character is not |
| SearchText.TrailingIn | Contacts/List/ContactsListModel.swift:42 | the count of trailing characters in the set, stopping at a given index: all of them are in the set, and the character before them is not |
| SearchText.Trimming | Contacts/List/ContactsListModel.swift:42 | the result is the input with its leading and trailing characters of the set removed, character for character; its ends are outside the set |
| SearchText.TrimmingBlank | Contacts/List/ContactsListModel.swift:42 | an input made only of characters of the set trims to "" |
| SearchText.TrimmingUntouched | Contacts/List/ContactsListModel.swift:42 | a string whose first and last characters are outside the set is left unchanged |
| SearchText.Components | Contacts/List/ContactsListModel.swift:43 | `components(separatedBy:)` always gives at least one piece, "" for "" |
| SearchText.ComponentsPieces | Contacts/List/ContactsListModel.swift:43 | no piece contains a separator, and the pieces joined give the input without its separators |
| SearchText.ComponentsOfPiece | Contacts/List/ContactsListModel.swift:43 | a string without separators is a single piece |
| SearchText.ComponentsLeadingRun | Contacts/List/ContactsListModel.swift:43 | the first piece runs up to the first separator, and the remaining pieces are those of the text after it |
| SearchText.NonEmpty | Contacts/List/ContactsListModel.swift:44 | `filter { $0 != "" }` keeps only non-empty pieces, all taken from the input, and joining is unchanged |
| SearchText.NonEmptyAppend | Contacts/List/ContactsListModel.swift:44 | the filter works piece by piece over a concatenation, so kept pieces keep their order and their number of occurrences |
| SearchText.NonEmptyPiece | Contacts/List/ContactsListModel.swift:44 | a single piece is kept exactly when it is not empty |
| SearchText.LeadingOutside | Contacts/List/ContactsListModel.swift:43 | the count of leading characters outside the set: all of them are outside, and the next character is inside |
| SearchText.Words | Contacts/List/ContactsListModel.swift:43-44 | the maximal runs of non-separator characters, in order: each is non-empty and contains no separator |
| SearchText.NonEmptyComponentsAreWords | Contacts/List/ContactsListModel.swift:43-44 | splitting at every separator and dropping the empty pieces gives exactly the words |
| SearchText.SearchTerms | Contacts/List/ContactsListModel.swift:40-44 | the terms are exactly the words, split at `.whitespaces`, of the lowercased query trimmed of whitespace and newlines; they are non-empty, contain no whitespace, and joined give the trimmed query without its whitespace |
| SearchText.BlankQueryHasNoTerms | Contacts/List/ContactsListModel.swift:40-44 | a query made only of whitespace and newlines, "" included, gives no terms |
| SearchText.TwoWordQuery | Contacts/List/ContactsListModel.swift:40-44 | a query that lowercases to "alice smith" gives the terms "alice" and "smith" |
| Sectioning.MakeSection | Contacts/List/ContactsListModel.swift:95-100 | `Section.init?` fails exactly on an empty group and otherwise keeps the title and contacts |
| Sectioning.Bucket | Contacts/List/ContactsListModel.swift:75-79 | the contacts of the sorted array that fall in section k, in sorted order: the bucket `reduce(into:)` fills |
| Sectioning.BucketInSection | Contacts/List/ContactsListModel.swift:75-79 | every contact in bucket k falls in section k |
| Sectioning.BucketSnoc | Contacts/List/ContactsListModel.swift:76-78 | filing one more contact appends it to the bucket of its own section and changes no other bucket |
| Sectioning.BucketCount | Contacts/List/ContactsListModel.swift:75-79 | bucket k holds every occurrence of the contacts of section k and nothing else |
| Sectioning.BucketKeepsOrder | Contacts/List/ContactsListModel.swift:75-79 | a bucket is a subsequence of the sorted array it was filled from |
| Sectioning.SectionsUpTo | Contacts/List/ContactsListModel.swift:81-84 | the `compactMap` over the first k titles: each title with a non-empty bucket, in title order |
| Sectioning.SectionsUpToNonEmpty | Contacts/List/ContactsListModel.swift:81-84 | the `compactMap` over the buckets yields no empty section |
| Sectioning.SectionsUpToStep | Contacts/List/ContactsListModel.swift:81-84 | one more title appends its section exactly when its bucket is not empty |
| Sectioning.FlattenSectionsUpTo | Contacts/List/ContactsListModel.swift:75-84 | the sections, flattened, are the buckets one after the other in title order |
| Sectioning.BucketsBelowCount | Contacts/List/ContactsListModel.swift:75-79 | the buckets of the first k titles hold every occurrence of the contacts whose section is below k, and nothing else |
| Sectioning.SectionsUpToShape | Contacts/List/ContactsListModel.swift:81-84 | each section is the bucket of its title, and the title positions increase strictly |
| Sectioning.Sectioned | Contacts/List/ContactsListModel.swift:71-85 | the sections `sortSections` computes from the contacts: `SectionsUpTo` over all titles of the collation's sorted array |
| Sectioning.SectionedInvariants | Contacts/List/ContactsListModel.swift:71-85 | no section is empty; titles follow title order without repeats; each section is exactly its title's bucket; every contact sits under its collation title; the sections together are a permutation of the contacts, so the rows add up to the contact count |
| Sectioning.SectionsKeepSortedOrder | Contacts/List/ContactsListModel.swift:74-83 | each section's contacts are in the collation's sorted order |
| Sectioning.SectionedListsExactly | Contacts/List/ContactsListModel.swift:71-85 | a contact appears in some section iff it is in the list |
| Sectioning.SectionedTitles | Contacts/List/ContactsListModel.swift:81-84 | every section title is one of the collation's titles |
| Sectioning.SectionedEmpty | Contacts/List/ContactsListModel.swift:71-85 | there are no sections iff there are no contacts, and never more sections than contacts |
| Sectioning.FirstTitled | Contacts/List/ContactsListModel.swift:36 | `firstIndex(where:)` on titles: the first section with the title, or none exactly when no section has it |
| Sectioning.Matches | Contacts/List/ContactsListModel.swift:103 | `containsAll(elements:)`: every term is one of the contact's searchable strings |
| Sectioning.FilterContacts | Contacts/List/ContactsListModel.swift:103 | the result is a subsequence of the section's contacts, holding exactly those whose tokens contain every term |
| Sectioning.Filtered | Contacts/List/ContactsListModel.swift:102-105 | `Section.filtered(by:)` fails exactly when no contact matches; otherwise it keeps the title and gives a non-empty subsequence of exactly the matching contacts |
| Sectioning.FilterSections | Contacts/List/ContactsListModel.swift:46 | the filtered view has no empty section and no more sections than before |
| Sectioning.FilteredSectionsOrigin | Contacts/List/ContactsListModel.swift:46 | every filtered section is the filtered form of some section, so it has that section's title |
| Sectioning.FilterSectionsContents | Contacts/List/ContactsListModel.swift:102-105 | a contact is shown after filtering iff it was shown before and matches every term |
| Sectioning.FilterSectionsTitles | Contacts/List/ContactsListModel.swift:102-105 | filtering introduces no new titles |
| Sectioning.FilterSectionsNoTerms | Contacts/List/ContactsListModel.swift:102-105 | with no terms, filtering returns the sections unchanged |
| Sectioning.ExactTokenMatching | Contacts/List/ContactsListModel.swift:103 | terms match whole tokens: "ali" does not find a contact with tokens "alice" and "smith", but "alice smith" does |
| ContactsList.IndexOfId | Contacts/List/ContactsListModel.swift:50 | `firstIndex(where: { $0.id == id })`: the first entry with the id, or none exactly when no entry has it |
| ContactsList.Upsert | Contacts/List/ContactsListModel.swift:49-55 | the contact is in the result. A known id keeps the count, and a new id appends. Entries with other ids keep their places. Distinct ids stay distinct, and the contact is then the only entry with its id |
| ContactsList.Delete | Contacts/List/ContactsListModel.swift:57-61 | an unknown id changes nothing. For a known id, the first entry with it is taken out: the entries before it stay as they are and those after it move up one place, in order. Distinct ids stay distinct, and the id is then gone |
| ContactsList.AddThenRemove | Contacts/List/ContactsListModel.swift:49-61 | adding a contact with a new id and removing it restores the list |
| ContactsList.AddIdempotent | Contacts/List/ContactsListModel.swift:49-55 | adding the same contact twice equals adding it once |
| ContactsList.Converted | Contacts/List/ContactsListModel.swift:118-129 | one loaded contact per record, in file order, the i-th carrying the i-th generated id |
| ContactsList.FromCodable | Contacts/List/ContactsListModel.swift:119-129 | the loaded contact has the new id and every field holds the record's value |
| ContactsList.CopiesGiveFromCodable | Contacts/List/ContactsListModel.swift:119-129 | the chain of `copy(withNewValue:for:)` calls on a fresh instance gives that contact |
| ContactsList.FromCodableInjective | Contacts/List/ContactsListModel.swift:119-129 | no part of a record is lost: different records load as different contacts |
| ContactsList.AddAll | Contacts/List/ContactsListModel.swift:118-131 | adding several contacts brings in nothing else and keeps ids distinct |
| ContactsList.AddAllFresh | Contacts/List/ContactsListModel.swift:118-131 | contacts with new, distinct ids are appended in order |
| ContactsList.LoadedInFileOrder | Contacts/List/ContactsListModel.swift:118-131 | with distinct generated ids, loading yields exactly the records, in file order |
| ContactsList.ContactsListModel.constructor | Contacts/List/ContactsListModel.swift:13-15 | `init()` loads the decoded records, or leaves the list empty when there is no file or it does not decode; the invariant holds |
| ContactsList.ContactsListModel.LoadContacts | Contacts/List/ContactsListModel.swift:112-136 | each record is converted and added in turn; the invariant holds |
| ContactsList.ContactsListModel.Add | Contacts/List/ContactsListModel.swift:49-55 | the list becomes its update-or-insert with the contact; ids stay distinct and `sections` is re-derived |
| ContactsList.ContactsListModel.Remove | Contacts/List/ContactsListModel.swift:57-61 | the list becomes its deletion of the contact's id; ids stay distinct and `sections` is re-derived |
| ContactsList.FillBuckets | Contacts/List/ContactsListModel.swift:75-79 | the `reduce(into:)` loop leaves one bucket per title, and bucket k is the contacts of section k in sorted order |
| ContactsList.CompactBuckets | Contacts/List/ContactsListModel.swift:81-84 | the `compactMap` loop keeps the non-empty buckets under their titles, in title order |
| ContactsList.ContactsListModel.SortSections | Contacts/List/ContactsListModel.swift:71-85 | the bucket fill and the `compactMap` loops leave `sections` equal to the sectioning of the contacts |
| ContactsList.ContactsListModel.FilterContentForSearchText | Contacts/List/ContactsListModel.swift:39-47 | `filteredSections` becomes the sections filtered by the query's terms; filtered sections stay non-empty and carry collation titles |
| ContactsList.ContactsListModel.SectionsFor | Contacts/List/ContactsListModel.swift:67-69 | `sections(for:)`: the filtered sections when filtering, the sections otherwise |
| ContactsList.ContactsListModel.SectionIndexTitles | Contacts/List/ContactsListModel.swift:11 | `sectionIndexTitles`: the collation's index titles |
| ContactsList.ContactsListModel.ContactAt | Contacts/List/ContactsListModel.swift:17-19 | the row's contact belongs to its section; unfiltered, it is one of the contacts and the collation puts it under that section's title |
| ContactsList.ContactsListModel.NumberOfSections | Contacts/List/ContactsListModel.swift:21-23 | unfiltered, there are sections iff there are contacts, and never more sections than contacts |
| ContactsList.ContactsListModel.NumberOfRows | Contacts/List/ContactsListModel.swift:25-27 | every shown section has at least one row; unfiltered, never more rows than contacts |
| ContactsList.ContactsListModel.TitleForHeader | Contacts/List/ContactsListModel.swift:29-33 | no header iff there are 5 contacts or fewer, in both modes; otherwise the section's title, which is a collation title |
| ContactsList.ContactsListModel.SectionForTitle | Contacts/List/ContactsListModel.swift:35-37 | the first section carrying the title, or the caller's index when none does |
| ContactsList.AddShowsRemoveHides | Contacts/List/ContactsListModel.swift:7 | after an add, the re-derived sections show the contact; after a remove, nothing with its id is shown |
| ContactsList.SearchShowsMatches | Contacts/List/ContactsListModel.swift:39-47 | after a search, a contact is shown iff it is in the list and its tokens contain every term |
| ContactsList.BlankSearchShowsAll | Contacts/List/ContactsListModel.swift:39-47 | a query made only of whitespace and newlines shows the unfiltered sections |
| ContactsList.FullNameSearch | Contacts/List/ContactsListModel.swift:39-47 | after a search for "alice smith", a contact is shown iff it is in the list and its tokens include both "alice" and "smith" |

## Left out

- The view controllers and the table cell (`ContactDetailViewController`, `ContactsListViewController`, `ContactsListTableViewCell`) are UIKit presentation and are not part of this model. The picker callback and the emergency switch appear only as the values they store, in `PickerRoundTrip` and `EmergencySwitchRoundTrip`.
- Reading `contacts.json` from the bundle and decoding it is I/O. `ContactsListModel`'s constructor takes the decoded records as a parameter, with `None` standing for a missing or undecodable file; the printed error is not modelled.
- `Contact.instance()` generates a UUID. The constructor takes the generated ids as a function `ids`, so `ids(i)` is the id of the i-th loaded record.
- ContactsList.ContactsListModel.LoadContacts: the loop adds the i-th converted record. The field-by-field copy chain of the loop body is stated separately by `CopiesGiveFromCodable`.
- Swift's `count` counts grapheme clusters; here a string is a sequence of characters and its length is the number of characters.
- Foundation's `CharacterSet`s, `lowercased()` and `NSString.boolValue` are Unicode- and platform-defined. They are `Platform` parameters, constrained only by `Platform.Valid()`. Of `lowercased()` the model assumes only that it leaves a string of whitespace and newlines unchanged.
- `UILocalizedIndexedCollation` and the `collationString` selector are locale-dependent. They are a `Collation` parameter, and `sectionIndexTitles` (`SectionIndexTitles`) only passes the collation's index titles through.
- `Contact.isEmpty`, `searchableStrings`, `containsAll` and `State.allCases` come from the `ObjectLibrary` framework, whose source is not part of this model:
  - `isEmpty` is taken to mean that every stored value is "";
  - `searchableStrings` is a parameter of the list model;
  - `containsAll` means every term is one of the strings;
  - the state table is a parameter with distinct raw values, none of them "" or "--".
- The delegate is held weakly in the source, so a released delegate receives nothing. The model records every `save(isEnabled:)` call in a log, as if the delegate were always present.
- `filteredSections` is not refreshed by `add` and `remove`; the list screen does that. So after an add or a remove the model promises only that the filtered sections are non-empty and carry collation titles, not that they match the current contacts.
- Out-of-range indexes trap in the source. The query functions require their indexes to be in range instead. `TitleForHeader` requires this only when there are more than five contacts, because only then does the source index.
- `Contact.debugString` is debugging output and is not modelled.
- Text.ParseInt: its own contract states only that a parse is in range and comes from an optional sign and one or more digits. The value and the acceptance of every such string are stated by `ParseIntDigits`, `ParseIntPlus` and `ParseIntMinus`; no lemma evaluates a 19- or 20-digit literal such as "+9223372036854775807", whose outcome those lemmas give in terms of the digits' value.
- Components: its own contract says only that there is at least one piece; where the pieces split is stated by `ComponentsOfPiece` and `ComponentsLeadingRun`, which together fix the result.
- NonEmpty: its own contract does not fix the order or the multiplicity of the kept pieces; `NonEmptyAppend` and `NonEmptyPiece` together do.
- Search terms follow the code rather than a plain "split on whitespace": the query is trimmed of whitespace and newlines but split only on `.whitespaces`, so a newline inside the query stays inside a term.
