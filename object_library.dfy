/**
 * The types the app imports from its `ObjectLibrary` framework, whose source
 * is not part of this model: the `InputField` enumeration with its grouping
 * into form sections, the `State` enumeration, and the `Contact` record.
 * Their members are modelled only as far as the app's code relies on them.
 */
module ObjectLibrary {
  import opened Wrappers

  /** `InputField`: the fields of a contact, in declaration order. */
  datatype Field =
    | FirstName | LastName | Phone | Email
    | Street | Apartment | City | State | Zipcode
    | Emergency

  /** `InputField.sections`: the form's groups, in the order the whole-contact
    * validation walks them. */
  const Sections: seq<seq<Field>> :=
    [[FirstName, LastName], [Phone, Email], [Street, Apartment, City, State, Zipcode], [Emergency]]

  /** Every field lies in exactly one place of `Sections`. */
  lemma SectionsPartitionFields(f: Field)
    ensures exists i, j :: 0 <= i < |Sections| && 0 <= j < |Sections[i]| && Sections[i][j] == f
    ensures forall i, j, i', j' ::
      (0 <= i < |Sections| && 0 <= j < |Sections[i]| && 0 <= i' < |Sections| && 0 <= j' < |Sections[i']| &&
       Sections[i][j] == f && Sections[i'][j'] == f) ==> i == i' && j == j'
  {
    match f
    case FirstName => assert Sections[0][0] == f;
    case LastName => assert Sections[0][1] == f;
    case Phone => assert Sections[1][0] == f;
    case Email => assert Sections[1][1] == f;
    case Street => assert Sections[2][0] == f;
    case Apartment => assert Sections[2][1] == f;
    case City => assert Sections[2][2] == f;
    case State => assert Sections[2][3] == f;
    case Zipcode => assert Sections[2][4] == f;
    case Emergency => assert Sections[3][0] == f;
  }

  // ---------------------------------------------------------------------------
  // State

  /** One case of the `State` enumeration: its raw value (the full name, which
    * is what a contact stores) and its postal abbreviation. */
  datatype StateInfo = StateInfo(rawValue: string, postalAbbreviation: string)

  /** `State.allCases` in declaration order. A case of `State` is its position
    * in this table. Swift requires the raw values of an enumeration to be
    * distinct; none of the state names is empty or the picker's "--". */
  ghost predicate WellFormedStates(allCases: seq<StateInfo>) {
    && (forall i, j :: 0 <= i < j < |allCases| ==> allCases[i].rawValue != allCases[j].rawValue)
    && (forall i :: 0 <= i < |allCases| ==> allCases[i].rawValue != "" && allCases[i].rawValue != "--")
  }

  /** `State(rawValue:)`: the case whose raw value is `raw`, if any. */
  function StateNamed(allCases: seq<StateInfo>, raw: string): (r: Option<nat>)
    ensures r.Some? ==> r.value < |allCases| && allCases[r.value].rawValue == raw
    ensures r.None? <==> forall i :: 0 <= i < |allCases| ==> allCases[i].rawValue != raw
    ensures WellFormedStates(allCases) && r.Some? ==>
      forall i :: 0 <= i < |allCases| && allCases[i].rawValue == raw ==> i == r.value
  {
    if allCases == [] then None
    else if allCases[0].rawValue == raw then Some(0)
    else match StateNamed(allCases[1..], raw)
      case None => None
      case Some(k) => Some(k + 1)
  }

  // ---------------------------------------------------------------------------
  // Contact

  /** The stable identifier a contact gets when it is created (a UUID). */
  type ContactId = nat

  /** `Contact`: an immutable value with an identity and a value per field that
    * has been set. */
  datatype Contact = Contact(id: ContactId, values: map<Field, string>) {

    /** `value(for:)`. */
    function Value(f: Field): (r: Option<string>)
      ensures r.Some? <==> f in values
      ensures r.Some? ==> r.value == values[f]
    {
      if f in values then Some(values[f]) else None
    }

    /** `copy(withNewValue:for:)`: a new contact with the same identity in which
      * only `f` has changed. */
    function Copy(newValue: string, f: Field): (r: Contact)
      ensures r.id == id
      ensures r.Value(f) == Some(newValue)
      ensures forall g :: g != f ==> r.Value(g) == Value(g)
    {
      Contact(id, values[f := newValue])
    }

    /** `isEmpty`: no field holds a non-empty value. */
    predicate IsEmpty() {
      forall f :: f in values ==> values[f] == ""
    }
  }

  /** `Contact.instance()`: a contact with nothing set; `id` stands for the
    * freshly generated UUID. */
  function Instance(id: ContactId): (r: Contact)
    ensures r.id == id && r.IsEmpty()
    ensures forall f :: r.Value(f) == None
  {
    Contact(id, map[])
  }

  /** Copies are isolated: a second write to the same field wins, and writes
    * to different fields commute. */
  lemma CopyIsolation(c: Contact, f: Field, g: Field, v1: string, v2: string)
    ensures c.Copy(v1, f).Copy(v2, f) == c.Copy(v2, f)
    ensures f != g ==> c.Copy(v1, f).Copy(v2, g) == c.Copy(v2, g).Copy(v1, f)
  {
  }
}
