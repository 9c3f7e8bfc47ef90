/**
 * `InputField.isValid(value:)` (Contacts/Extensions/InputField.swift): the
 * validation rule of each form field, a total predicate on the text entered.
 */
module InputFields {
  import opened Wrappers
  import opened Text
  import opened ObjectLibrary

  /** Whether `value` is acceptable for field `f`. Lengths are counted on the
    * original value, spaces included; street, apartment and city then test
    * the value without its spaces. */
  function IsValid(f: Field, value: string, p: Platform, allCases: seq<StateInfo>): (r: bool)
    ensures f == FirstName || f == LastName ==> (r <==> |value| >= 2)
    ensures f == Phone ==> (r <==> |value| >= 7 && ParseInt(value).Some?)
    ensures f == Email ==> (r <==> '@' in value)
    ensures f == Street ==>
      (r <==> |value| >= 3 && forall i :: 0 <= i < |value| ==> value[i] == ' ' || value[i] in p.alphanumerics)
    ensures f == Apartment ==>
      (r <==> |value| >= 1 && forall i :: 0 <= i < |value| ==> value[i] == ' ' || value[i] in p.alphanumerics)
    ensures f == City ==>
      (r <==> |value| >= 3 && forall i :: 0 <= i < |value| ==> value[i] == ' ' || value[i] in p.letters)
    ensures f == State ==> (r <==> exists i :: 0 <= i < |allCases| && allCases[i].rawValue == value)
    ensures f == Zipcode ==>
      (r <==> |value| == 5 && forall i :: 0 <= i < |value| ==> value[i] in p.decimalDigits)
    ensures f == Emergency ==> r
  {
    SpaceFreeCharacters(value, p.alphanumerics);
    SpaceFreeCharacters(value, p.letters);
    match f
    case FirstName | LastName => |value| >= 2
    case Phone => |value| >= 7 && IsInt(value)
    case Email => '@' in value
    case Street => |value| >= 3 && ContainsOnlyAlphanumerics(RemoveWhiteSpaces(value), p)
    case Apartment => |value| >= 1 && ContainsOnlyAlphanumerics(RemoveWhiteSpaces(value), p)
    case City => |value| >= 3 && ContainsOnlyLetters(RemoveWhiteSpaces(value), p)
    case State => StateNamed(allCases, value) != None
    case Zipcode => |value| == 5 && ContainsOnlyDigits(value, p)
    case Emergency => true
  }

  /** Once the spaces are removed, what remains lies in `chars` exactly when
    * every character of the original is a space or lies in `chars`. */
  lemma SpaceFreeCharacters(s: string, chars: set<char>)
    ensures (forall i :: 0 <= i < |RemoveWhiteSpaces(s)| ==> RemoveWhiteSpaces(s)[i] in chars)
        <==> (forall i :: 0 <= i < |s| ==> s[i] == ' ' || s[i] in chars)
  {
    var r := RemoveWhiteSpaces(s);
    if forall i :: 0 <= i < |r| ==> r[i] in chars {
      forall i | 0 <= i < |s| && s[i] != ' '
        ensures s[i] in chars
      {
        assert s[i] in multiset(s);
        assert s[i] in multiset(r);
      }
    }
    if forall i :: 0 <= i < |s| ==> s[i] == ' ' || s[i] in chars {
      forall i | 0 <= i < |r|
        ensures r[i] in chars
      {
        assert r[i] in multiset(r);
        assert r[i] in multiset(s);
      }
    }
  }

  /** The validation table, part one: names, phone and email. */
  lemma NameAndPhoneExamples(p: Platform, allCases: seq<StateInfo>)
    ensures IsValid(FirstName, "Al", p, allCases) && !IsValid(LastName, "A", p, allCases)
    ensures IsValid(Phone, "1234567", p, allCases) && IsValid(Phone, "-123456", p, allCases)
    ensures !IsValid(Phone, "123456", p, allCases)
    ensures !IsValid(Phone, "123 4567", p, allCases) && !IsValid(Phone, "12345a7", p, allCases)
  {
    ShortDigitStringIsInt("1234567");
    IsIntExamples();
  }

  lemma EmailExamples(p: Platform, allCases: seq<StateInfo>)
    ensures IsValid(Email, "a@b", p, allCases) && !IsValid(Email, "ab", p, allCases)
  {
    assert "a@b"[1] == '@';
  }

  /** The validation table, part two: the address fields and the switch. */
  lemma AddressExamples(p: Platform, allCases: seq<StateInfo>)
    requires p.Valid()
    requires WellFormedStates(allCases)
    ensures IsValid(Apartment, " ", p, allCases) && !IsValid(Apartment, "", p, allCases)
    ensures !IsValid(State, "", p, allCases) && !IsValid(State, "--", p, allCases)
    ensures IsValid(Zipcode, "02134", p, allCases)
    ensures !IsValid(Zipcode, "1234", p, allCases) && !IsValid(Zipcode, "1234a", p, allCases)
    ensures forall s :: IsValid(Emergency, s, p, allCases)
  {
    assert "1234a"[4] == 'a';
  }

  /** A digit anywhere in a city name makes it invalid. */
  lemma CityRejectsDigits(value: string, k: nat, p: Platform, allCases: seq<StateInfo>)
    requires p.Valid()
    requires k < |value| && value[k] in p.decimalDigits
    ensures !IsValid(City, value, p, allCases)
  {
  }
}
