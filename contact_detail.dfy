/**
 * `ContactDetailModel` (Contacts/Detail/ContactDetailModel.swift): the contact
 * being edited on the detail form, the state picker's option table, the
 * lookups the form fills its fields from, and the whole-contact "can it be
 * saved" rule reported to the form after every edit.
 */
module ContactDetail {
  import opened Wrappers
  import opened Text
  import opened ObjectLibrary
  import InputFields

  /** A present field blocks saving exactly when its value fails its rule;
    * an absent field never does. */
  predicate FieldPasses(p: Platform, allCases: seq<StateInfo>, c: Contact, f: Field) {
    f in c.values ==> InputFields.IsValid(f, c.values[f], p, allCases)
  }

  /** The progressive rule behind `isValid(contact:)`: an empty contact is
    * never savable; otherwise every field that has a value must pass its
    * rule, and fields without a value are skipped. */
  predicate Savable(p: Platform, allCases: seq<StateInfo>, c: Contact) {
    !c.IsEmpty() && forall f :: FieldPasses(p, allCases, c, f)
  }

  /** The picker's option table: row 0 is ("--", ""), row i + 1 is the raw
    * value and postal abbreviation of `State.allCases[i]`. */
  ghost predicate IsStateOptionTable(options: seq<(string, string)>, allCases: seq<StateInfo>) {
    && |options| == |allCases| + 1
    && options[0] == ("--", "")
    && forall i :: 0 <= i < |allCases| ==>
         options[i + 1] == (allCases[i].rawValue, allCases[i].postalAbbreviation)
  }

  /** `getInputText(for:)`: the text a form field shows. For the state field it
    * is the postal abbreviation of the stored state name; every other field
    * shows its stored value. A missing value, or a stored name that is no
    * state, shows as "". */
  function InputText(allCases: seq<StateInfo>, c: Contact, f: Field): (r: string)
    ensures f != State ==> r == (if f in c.values then c.values[f] else "")
    ensures f == State && WellFormedStates(allCases) ==>
      forall i :: 0 <= i < |allCases| && c.Value(State) == Some(allCases[i].rawValue) ==>
        r == allCases[i].postalAbbreviation
    ensures f == State &&
      (State !in c.values || forall i :: 0 <= i < |allCases| ==> allCases[i].rawValue != c.values[State])
      ==> r == ""
  {
    if f == State then
      match c.Value(State)
      case None => ""
      case Some(value) =>
        match StateNamed(allCases, value)
        case None => ""
        case Some(state) => allCases[state].postalAbbreviation
    else
      c.Value(f).GetOr("")
  }

  /** `getStateOptionIndex()`: the picker row to preselect. Row 0 when no state
    * or an unknown name is stored, else the state's position plus one; always
    * a row of the option table. */
  function StateOptionIndex(allCases: seq<StateInfo>, c: Contact): (r: nat)
    ensures r <= |allCases|
    ensures r == 0 <==>
      (State !in c.values || forall i :: 0 <= i < |allCases| ==> allCases[i].rawValue != c.values[State])
    ensures r > 0 ==> c.Value(State) == Some(allCases[r - 1].rawValue)
  {
    match c.Value(State)
    case None => 0
    case Some(value) =>
      match StateNamed(allCases, value)
      case None => 0
      // `State.allCases.firstIndex(of: state)` is the case's own position
      case Some(state) => state + 1
  }

  /** `getEmergencyFlag()`: the stored emergency string read as a boolean,
    * false when nothing is stored. */
  function EmergencyFlag(p: Platform, c: Contact): (r: bool)
    ensures Emergency !in c.values ==> !r
    ensures p.Valid() && c.Value(Emergency) == Some("true") ==> r
    ensures p.Valid() && c.Value(Emergency) == Some("false") ==> !r
  {
    match c.Value(Emergency)
    case None => false
    case Some(value) => BoolValue(value, p)
  }

  class ContactDetailModel {
    const platform: Platform
    const allCases: seq<StateInfo>
    var contact: Contact
    var stateOptions: seq<(string, string)>
    /** The `save(isEnabled:)` calls the delegate has received, oldest first. */
    var saveNotifications: seq<bool>

    ghost predicate Valid()
      reads this
    {
      WellFormedStates(allCases) && IsStateOptionTable(stateOptions, allCases)
    }

    /** `init(contact:delegate:)`: keeps the contact and builds the picker's
      * option table; the delegate is not notified yet. */
    constructor(platform: Platform, allCases: seq<StateInfo>, contact: Contact)
      requires WellFormedStates(allCases)
      ensures Valid()
      ensures this.platform == platform && this.allCases == allCases
      ensures this.contact == contact && saveNotifications == []
    {
      this.platform := platform;
      this.allCases := allCases;
      this.contact := contact;
      this.saveNotifications := [];
      var options: seq<(string, string)> := [("--", "")];
      var i := 0;
      while i < |allCases|
        invariant 0 <= i <= |allCases|
        invariant |options| == i + 1 && options[0] == ("--", "")
        invariant forall k :: 0 <= k < i ==>
          options[k + 1] == (allCases[k].rawValue, allCases[k].postalAbbreviation)
      {
        options := options + [(allCases[i].rawValue, allCases[i].postalAbbreviation)];
        i := i + 1;
      }
      this.stateOptions := options;
    }

    /** `updateContact(value:for:)`: stores `value ?? ""` in field `f` of a copy
      * of the contact, then tells the delegate whether the new contact can be
      * saved. */
    method UpdateContact(value: Option<string>, f: Field)
      requires Valid()
      modifies this`contact, this`saveNotifications
      ensures Valid()
      ensures contact == old(contact).Copy(value.GetOr(""), f)
      ensures contact.id == old(contact).id
      ensures saveNotifications == old(saveNotifications) + [Savable(platform, allCases, contact)]
    {
      contact := contact.Copy(value.GetOr(""), f);
      UpdateSave();
    }

    /** `updateSave()`: reports the current contact's savability. */
    method UpdateSave()
      modifies this`saveNotifications
      ensures saveNotifications == old(saveNotifications) + [Savable(platform, allCases, contact)]
    {
      var enabled := IsValid(contact);
      saveNotifications := saveNotifications + [enabled];
    }

    /** `isValid(contact:)`: walks the form's sections field by field and stops
      * at the first present value that fails its rule. */
    method IsValid(c: Contact) returns (ok: bool)
      ensures ok == Savable(platform, allCases, c)
    {
      if c.IsEmpty() {
        return false;
      }
      var i := 0;
      while i < |Sections|
        invariant 0 <= i <= |Sections|
        invariant forall i', j :: 0 <= i' < i && 0 <= j < |Sections[i']| ==>
          FieldPasses(platform, allCases, c, Sections[i'][j])
      {
        var section := Sections[i];
        var j := 0;
        while j < |section|
          invariant 0 <= j <= |section|
          invariant forall j' :: 0 <= j' < j ==> FieldPasses(platform, allCases, c, section[j'])
        {
          var field := section[j];
          match c.Value(field) {
            case None =>
            case Some(value) =>
              if !InputFields.IsValid(field, value, platform, allCases) {
                assert !FieldPasses(platform, allCases, c, field);
                return false;
              }
          }
          j := j + 1;
        }
        i := i + 1;
      }
      forall f
        ensures FieldPasses(platform, allCases, c, f)
      {
        SectionsPartitionFields(f);
      }
      return true;
    }
  }

  // ---------------------------------------------------------------------------
  // Properties

  /** The samples of the progressive rule: an empty contact is not savable, a
    * contact holding only a valid first name is, one holding only a too-short
    * first name is not. */
  lemma SavableExamples(p: Platform, allCases: seq<StateInfo>, id: ContactId)
    ensures !Savable(p, allCases, Instance(id))
    ensures Savable(p, allCases, Instance(id).Copy("Al", FirstName))
    ensures !Savable(p, allCases, Instance(id).Copy("A", FirstName))
  {
    var al := Instance(id).Copy("Al", FirstName);
    assert al.values == map[FirstName := "Al"];
    assert !al.IsEmpty() by { assert al.values[FirstName] != ""; }
    var a := Instance(id).Copy("A", FirstName);
    assert !FieldPasses(p, allCases, a, FirstName);
  }

  /** One edit under the progressive rule: storing a valid non-empty value
    * keeps a savable contact savable, and storing an invalid value makes any
    * contact unsavable. (A valid but empty value can empty the contact: the
    * emergency field accepts "".) */
  lemma EditKeepsOrBlocksSaving(p: Platform, allCases: seq<StateInfo>, c: Contact, f: Field, v: string)
    ensures Savable(p, allCases, c) && v != "" && InputFields.IsValid(f, v, p, allCases) ==>
      Savable(p, allCases, c.Copy(v, f))
    ensures !InputFields.IsValid(f, v, p, allCases) ==> !Savable(p, allCases, c.Copy(v, f))
  {
    var d := c.Copy(v, f);
    if Savable(p, allCases, c) && v != "" && InputFields.IsValid(f, v, p, allCases) {
      assert d.values[f] != "";
      forall g
        ensures FieldPasses(p, allCases, d, g)
      {
        assert FieldPasses(p, allCases, c, g);
      }
    }
    if !InputFields.IsValid(f, v, p, allCases) {
      assert !FieldPasses(p, allCases, d, f);
    }
  }

  /** Clearing a text field stores "" rather than removing the value, so
    * clearing the first name blocks saving. */
  lemma ClearedNameBlocksSaving(p: Platform, allCases: seq<StateInfo>, c: Contact)
    ensures !Savable(p, allCases, c.Copy(None.GetOr(""), FirstName))
  {
    assert !FieldPasses(p, allCases, c.Copy("", FirstName), FirstName);
  }

  /** The picker round trip: choosing row r stores the row's state name, after
    * which the form preselects row r again and the state field shows the
    * row's abbreviation. Choosing row 0 stores "--", which is no state, so the
    * contact cannot be saved. */
  lemma PickerRoundTrip(p: Platform, allCases: seq<StateInfo>, options: seq<(string, string)>, c: Contact, row: nat)
    requires WellFormedStates(allCases)
    requires IsStateOptionTable(options, allCases)
    requires row < |options|
    ensures var picked := c.Copy(options[row].0, State);
      && picked.id == c.id
      && StateOptionIndex(allCases, picked) == row
      && InputText(allCases, picked, State) == options[row].1
      && (row > 0 ==> InputFields.IsValid(State, picked.values[State], p, allCases))
      && (row == 0 ==> !Savable(p, allCases, picked))
  {
    var picked := c.Copy(options[row].0, State);
    if row == 0 {
      assert !FieldPasses(p, allCases, picked, State);
    } else {
      assert options[row] == (allCases[row - 1].rawValue, allCases[row - 1].postalAbbreviation);
    }
  }

  /** The converse direction: the preselected row names the stored state. */
  lemma PreselectedRowNamesStoredState(allCases: seq<StateInfo>, options: seq<(string, string)>, c: Contact)
    requires IsStateOptionTable(options, allCases)
    ensures StateOptionIndex(allCases, c) < |options|
    ensures StateOptionIndex(allCases, c) > 0 ==>
      c.Value(State) == Some(options[StateOptionIndex(allCases, c)].0)
  {
    var r := StateOptionIndex(allCases, c);
    if r > 0 {
      assert options[(r - 1) + 1] == (allCases[r - 1].rawValue, allCases[r - 1].postalAbbreviation);
    }
  }

  /** The emergency switch round trip: the switch stores `isOn.description`,
    * and the flag read back is the switch's position. */
  lemma EmergencySwitchRoundTrip(p: Platform, c: Contact, isOn: bool)
    requires p.Valid()
    ensures EmergencyFlag(p, c.Copy(BoolDescription(isOn), Emergency)) == isOn
  {
  }
}
