/**
 * `contactService`: the field validator for contacts and the guards the
 * service puts in front of each repository call.
 */
module ContactService {
  import opened Internal
  import opened Unicode
  import opened Validation
  import ContactRepository

  /** The error values the contact service can return. */
  datatype ContactError =
    | UserIdInvalid
    | IdInvalid
    | NameEmpty
    | NameInvalid
    | DdiEmpty
    | DdiInvalid
    | DddEmpty
    | DddInvalid
    | PhoneNumberEmpty
    | PhoneNumberInvalid

  /** A contact every check accepts, field by field. */
  predicate WellFormed(c: Contact)
  {
    && c.userId > Zero
    && 3 <= RuneCount(c.name) <= 100
    && RuneCount(c.ddi) == 3 && AllDigits(c.ddi)
    && RuneCount(c.ddd) == 3 && AllDigits(c.ddd)
    && RuneCount(c.phoneNumber) == 9 && AllDigits(c.phoneNumber)
  }

  /**
   * The checks of `validateContact` in the order they run: user id, then for
   * each of name, DDI, DDD and phone number the emptiness check before the
   * width (and digit) check.
   */
  function Checks(c: Contact): seq<Check<ContactError>>
  {
    [ Check(c.userId <= Zero, UserIdInvalid),
      Check(c.name == Empty, NameEmpty),
      Check(RuneCount(c.name) < 3 || RuneCount(c.name) > 100, NameInvalid),
      Check(c.ddi == Empty, DdiEmpty),
      Check(RuneCount(c.ddi) != 3 || !AllDigits(c.ddi), DdiInvalid),
      Check(c.ddd == Empty, DddEmpty),
      Check(RuneCount(c.ddd) != 3 || !AllDigits(c.ddd), DddInvalid),
      Check(c.phoneNumber == Empty, PhoneNumberEmpty),
      Check(RuneCount(c.phoneNumber) != 9 || !AllDigits(c.phoneNumber), PhoneNumberInvalid) ]
  }

  /**
   * `validateContact`. It returns (true, None) exactly for well-formed
   * contacts and never (false, None).
   */
  function ValidateContact(c: Contact): (r: (bool, Option<ContactError>))
    ensures r.0 <==> r.1 == None
    ensures r.0 <==> WellFormed(c)
  {
    if c.userId <= Zero then (false, Some(UserIdInvalid))
    else if c.name == Empty then (false, Some(NameEmpty))
    else if RuneCount(c.name) < 3 || RuneCount(c.name) > 100 then (false, Some(NameInvalid))
    else if c.ddi == Empty then (false, Some(DdiEmpty))
    else if RuneCount(c.ddi) != 3 then (false, Some(DdiInvalid))
    else if !AllDigits(c.ddi) then (false, Some(DdiInvalid))
    else if c.ddd == Empty then (false, Some(DddEmpty))
    else if RuneCount(c.ddd) != 3 then (false, Some(DddInvalid))
    else if !AllDigits(c.ddd) then (false, Some(DddInvalid))
    else if c.phoneNumber == Empty then (false, Some(PhoneNumberEmpty))
    else if RuneCount(c.phoneNumber) != 9 then (false, Some(PhoneNumberInvalid))
    else if !AllDigits(c.phoneNumber) then (false, Some(PhoneNumberInvalid))
    else (true, None)
  }

  /** On rejection, the error is that of the first check in Checks that fails. */
  lemma ValidateContactReportsFirstFailure(c: Contact)
    ensures ValidateContact(c).1 == FirstViolation(Checks(c))
  {
    var checks := Checks(c);
    assert checks[0..] == checks && checks[9..] == [];
    FirstViolationStep(checks, 0); FirstViolationStep(checks, 1); FirstViolationStep(checks, 2);
    FirstViolationStep(checks, 3); FirstViolationStep(checks, 4); FirstViolationStep(checks, 5);
    FirstViolationStep(checks, 6); FirstViolationStep(checks, 7); FirstViolationStep(checks, 8);
  }

  /** The contact of the service's tests passes; with an empty name it fails on the name. */
  lemma ValidateContactExamples()
    ensures ValidateContact(Contact(0, 1, "Test", "055", "051", "123456789")) == (true, None)
    ensures ValidateContact(Contact(0, 1, "", "055", "051", "123456789")) == (false, Some(NameEmpty))
    ensures ValidateContact(Contact(1, 0, "Test", "055", "051", "123456789")) == (false, Some(UserIdInvalid))
  {
  }

  /**
   * Digits are Unicode decimal digits, not only ASCII: Arabic-Indic digits
   * pass, while a three-rune DDD with a letter fails as invalid, not empty.
   */
  lemma ValidateContactDigitKinds(c: Contact)
    requires WellFormed(c)
    ensures ValidateContact(c.(ddi := "٠٥٥")) == (true, None)
    ensures ValidateContact(c.(ddd := "05a")) == (false, Some(DddInvalid))
  {
    var arabic := "٠٥٥";
    assert IsDigit(arabic[0]) && IsDigit(arabic[1]) && IsDigit(arabic[2]);
    assert !IsDigit("05a"[2]);
  }

  class Service {
    const repository: ContactRepository.Repository

    constructor (repository: ContactRepository.Repository)
      ensures this.repository == repository
    {
      this.repository := repository;
    }

    /** An invalid contact never reaches the repository. */
    method SaveContact(contact: Contact, now: Time) returns (id: int, err: Option<ContactError>)
      requires repository.Valid()
      modifies repository
      ensures repository.Valid()
      ensures !WellFormed(contact) ==>
        id == Zero && err != None && err == ValidateContact(contact).1 && unchanged(repository)
      ensures WellFormed(contact) ==>
        && err == None && id == old(repository.nextId) && repository.nextId == id + 1
        && repository.rows == old(repository.rows)[id := ContactRepository.NewRow(contact, now)]
    {
      var (valid, verr) := ValidateContact(contact);
      if verr != None || !valid {
        return Zero, verr;
      }
      id := repository.SaveContact(contact, now);
      err := None;
    }

    /** Only the user id is checked; the contact id goes to the repository as it is. */
    method GetContact(userId: int, contactId: int) returns (contact: Contact, err: Option<ContactError>)
      requires repository.Valid()
      ensures userId <= Zero ==> contact == ZeroContact && err == Some(UserIdInvalid)
      ensures userId > Zero ==> err == None && contact == ContactRepository.Lookup(repository.rows, userId, contactId)
    {
      if userId <= Zero {
        return ZeroContact, Some(UserIdInvalid);
      }
      contact := repository.GetContact(userId, contactId);
      err := None;
    }

    method ListContacts(userId: int) returns (contacts: seq<Contact>, err: Option<ContactError>)
      requires repository.Valid()
      ensures userId <= Zero ==> contacts == [] && err == Some(UserIdInvalid)
      ensures userId > Zero ==> err == None && ContactRepository.IsListing(repository.rows, userId, contacts)
    {
      if userId <= Zero {
        return [], Some(UserIdInvalid);
      }
      contacts := repository.ListContacts(userId);
      err := None;
    }

    /** An invalid contact never reaches the repository. */
    method UpdateContact(contact: Contact, now: Time) returns (found: bool, err: Option<ContactError>)
      requires repository.Valid()
      modifies repository
      ensures repository.Valid() && repository.nextId == old(repository.nextId)
      ensures !WellFormed(contact) ==>
        !found && err != None && err == ValidateContact(contact).1 && unchanged(repository)
      ensures WellFormed(contact) ==>
        && err == None
        && found == ContactRepository.Matches(old(repository.rows), contact.userId, contact.id)
        && repository.rows == ContactRepository.Updated(old(repository.rows), contact, now)
    {
      var (valid, verr) := ValidateContact(contact);
      if verr != None || !valid {
        return false, verr;
      }
      found := repository.UpdateContact(contact, now);
      err := None;
    }

    /** A non-positive user id or contact id is refused with the same error. */
    method DeleteContact(userId: int, contactId: int, now: Time) returns (found: bool, err: Option<ContactError>)
      requires repository.Valid()
      modifies repository
      ensures repository.Valid() && repository.nextId == old(repository.nextId)
      ensures userId <= Zero || contactId <= Zero ==> !found && err == Some(IdInvalid) && unchanged(repository)
      ensures userId > Zero && contactId > Zero ==>
        && err == None
        && found == ContactRepository.Matches(old(repository.rows), userId, contactId)
        && repository.rows == ContactRepository.Deleted(old(repository.rows), userId, contactId, now)
    {
      if userId <= Zero || contactId <= Zero {
        return false, Some(IdInvalid);
      }
      found := repository.DeleteContact(userId, contactId, now);
      err := None;
    }
  }
}
