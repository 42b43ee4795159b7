/**
 * `addressService`: the field validator for addresses and the guard in front
 * of the upsert. Reading an address is forwarded without any check.
 */
module AddressService {
  import opened Internal
  import opened Unicode
  import opened Validation
  import AddressRepository

  /** The error values the address service can return. */
  datatype AddressError =
    | UserIdInvalid
    | StreetEmpty
    | StreetInvalid
    | NumberEmpty
    | NumberInvalid
    | CepEmpty
    | CepInvalid
    | NeighborhoodEmpty
    | NeighborhoodInvalid
    | CityEmpty
    | CityInvalid
    | StateEmpty
    | StateInvalid

  /** An address every check accepts. The state is checked for width only. */
  predicate WellFormed(a: Address)
  {
    && a.userId > Zero
    && 3 <= RuneCount(a.street) <= 100
    && a.number != Empty && AllDigits(a.number)
    && RuneCount(a.cep) == 8 && AllDigits(a.cep)
    && 3 <= RuneCount(a.neighborhood) <= 100
    && 3 <= RuneCount(a.city) <= 100
    && RuneCount(a.state) == 2
  }

  /** The checks of `validateAddress` in the order they run. */
  function Checks(a: Address): seq<Check<AddressError>>
  {
    [ Check(a.userId <= Zero, UserIdInvalid),
      Check(a.street == Empty, StreetEmpty),
      Check(RuneCount(a.street) < 3 || RuneCount(a.street) > 100, StreetInvalid),
      Check(a.number == Empty, NumberEmpty),
      Check(RuneCount(a.number) < 1 || !AllDigits(a.number), NumberInvalid),
      Check(a.cep == Empty, CepEmpty),
      Check(RuneCount(a.cep) != 8 || !AllDigits(a.cep), CepInvalid),
      Check(a.neighborhood == Empty, NeighborhoodEmpty),
      Check(RuneCount(a.neighborhood) < 3 || RuneCount(a.neighborhood) > 100, NeighborhoodInvalid),
      Check(a.city == Empty, CityEmpty),
      Check(RuneCount(a.city) < 3 || RuneCount(a.city) > 100, CityInvalid),
      Check(a.state == Empty, StateEmpty),
      Check(RuneCount(a.state) != 2, StateInvalid) ]
  }

  /**
   * `validateAddress`. It returns (true, None) exactly for well-formed
   * addresses and never (false, None).
   */
  function ValidateAddress(a: Address): (r: (bool, Option<AddressError>))
    ensures r.0 <==> r.1 == None
    ensures r.0 <==> WellFormed(a)
  {
    if a.userId <= Zero then (false, Some(UserIdInvalid))
    else if a.street == Empty then (false, Some(StreetEmpty))
    else if RuneCount(a.street) < 3 || RuneCount(a.street) > 100 then (false, Some(StreetInvalid))
    else if a.number == Empty then (false, Some(NumberEmpty))
    else if RuneCount(a.number) < 1 then (false, Some(NumberInvalid))
    else if !AllDigits(a.number) then (false, Some(NumberInvalid))
    else if a.cep == Empty then (false, Some(CepEmpty))
    else if RuneCount(a.cep) != 8 then (false, Some(CepInvalid))
    else if !AllDigits(a.cep) then (false, Some(CepInvalid))
    else if a.neighborhood == Empty then (false, Some(NeighborhoodEmpty))
    else if RuneCount(a.neighborhood) < 3 || RuneCount(a.neighborhood) > 100 then (false, Some(NeighborhoodInvalid))
    else if a.city == Empty then (false, Some(CityEmpty))
    else if RuneCount(a.city) < 3 || RuneCount(a.city) > 100 then (false, Some(CityInvalid))
    else if a.state == Empty then (false, Some(StateEmpty))
    else if RuneCount(a.state) != 2 then (false, Some(StateInvalid))
    else (true, None)
  }

  /** On rejection, the error is that of the first check in Checks that fails. */
  lemma ValidateAddressReportsFirstFailure(a: Address)
    ensures ValidateAddress(a).1 == FirstViolation(Checks(a))
  {
    var checks := Checks(a);
    assert checks[0..] == checks && checks[13..] == [];
    FirstViolationStep(checks, 0); FirstViolationStep(checks, 1); FirstViolationStep(checks, 2);
    FirstViolationStep(checks, 3); FirstViolationStep(checks, 4); FirstViolationStep(checks, 5);
    FirstViolationStep(checks, 6); FirstViolationStep(checks, 7); FirstViolationStep(checks, 8);
    FirstViolationStep(checks, 9); FirstViolationStep(checks, 10); FirstViolationStep(checks, 11);
    FirstViolationStep(checks, 12);
  }

  /**
   * The width check on the number can never fire: once the number is
   * non-empty, it is reported invalid exactly when it holds a non-digit.
   */
  lemma NumberInvalidOnlyForNonDigits(a: Address)
    requires a.userId > Zero && 3 <= RuneCount(a.street) <= 100
    ensures ValidateAddress(a).1 == Some(NumberInvalid) <==> a.number != Empty && !AllDigits(a.number)
    ensures ValidateAddress(a).1 == Some(NumberEmpty) <==> a.number == Empty
  {
  }

  /** Only the width of the state is checked: any two runes are accepted in place of any others. */
  lemma StateCharactersAreNotChecked(a: Address, state: string)
    requires RuneCount(state) == 2 && RuneCount(a.state) == 2
    ensures ValidateAddress(a.(state := state)) == ValidateAddress(a)
  {
  }

  /** The addresses of the service's tests: the first passes, the all-empty one fails on the street. */
  lemma ValidateAddressExamples()
    ensures ValidateAddress(Address(0, 1, "Rua Nova", "456", "98765432", "Bairro Novo", "Rio de Janeiro", "RJ")) == (true, None)
    ensures ValidateAddress(Address(10, 1, "Rua Exemplo", "123", "12345678", "Centro", "São Paulo", "??")) == (true, None)
    ensures ValidateAddress(Address(0, 2, "", "", "", "", "", "")) == (false, Some(StreetEmpty))
  {
  }

  class Service {
    const repository: AddressRepository.Repository

    constructor (repository: AddressRepository.Repository)
      ensures this.repository == repository
    {
      this.repository := repository;
    }

    /** No validation at all: whatever the repository finds for `userId`. */
    method GetAddress(userId: int) returns (address: Address, err: Option<AddressError>)
      requires repository.Valid()
      ensures err == None && AddressRepository.IsLookup(repository.rows, userId, address)
    {
      address := repository.GetAddress(userId);
      err := None;
    }

    /** An invalid address never reaches the repository. */
    method AddOrUpdateAddress(address: Address, now: Time) returns (id: int, err: Option<AddressError>)
      requires repository.Valid()
      modifies repository
      ensures repository.Valid()
      ensures !WellFormed(address) ==>
        id == Zero && err != None && err == ValidateAddress(address).1 && unchanged(repository)
      ensures WellFormed(address) ==>
        err == None &&
        AddressRepository.Upserted(repository.rows, repository.nextId, id)
          == AddressRepository.Upsert(old(repository.rows), old(repository.nextId), address, now)
    {
      var (valid, verr) := ValidateAddress(address);
      if verr != None || !valid {
        return Zero, verr;
      }
      id := repository.AddOrUpdateAddress(address, now);
      err := None;
    }
  }
}
