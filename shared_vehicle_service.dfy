/**
 * `sharedVehicleService`: a two-check validator in front of insert and
 * update; get and list are forwarded unchecked.
 */
module SharedVehicleService {
  import opened Internal
  import opened Validation
  import SharedVehicleRepository

  /** The error values the shared-vehicle service can return. */
  datatype VehicleError = UserIdEmpty | TypeEmpty

  predicate WellFormed(v: SharedVehicle)
  {
    v.userId > Zero && v.vehicleType >= Zero
  }

  /** The checks of `validateSharedVehicle` in the order they run. */
  function Checks(v: SharedVehicle): seq<Check<VehicleError>>
  {
    [ Check(v.userId <= Zero, UserIdEmpty),
      Check(v.vehicleType < Zero, TypeEmpty) ]
  }

  /**
   * `validateSharedVehicle`: (true, None) exactly for a positive owner and a
   * non-negative type (type zero passes), and never (false, None).
   */
  function ValidateSharedVehicle(v: SharedVehicle): (r: (bool, Option<VehicleError>))
    ensures r.0 <==> r.1 == None
    ensures r.0 <==> WellFormed(v)
  {
    if v.userId <= Zero then (false, Some(UserIdEmpty))
    else if v.vehicleType < Zero then (false, Some(TypeEmpty))
    else (true, None)
  }

  /** The owner is checked before the type: the first failing check picks the error. */
  lemma ValidateSharedVehicleReportsFirstFailure(v: SharedVehicle)
    ensures ValidateSharedVehicle(v).1 == FirstViolation(Checks(v))
  {
    var checks := Checks(v);
    assert checks[0..] == checks && checks[2..] == [];
    FirstViolationStep(checks, 0); FirstViolationStep(checks, 1);
  }

  class Service {
    const repository: SharedVehicleRepository.Repository

    constructor (repository: SharedVehicleRepository.Repository)
      ensures this.repository == repository
    {
      this.repository := repository;
    }

    /** An invalid vehicle never reaches the repository. */
    method InsertSharedVehicle(vehicle: SharedVehicle, now: Time) returns (id: int, err: Option<VehicleError>)
      requires repository.Valid()
      modifies repository
      ensures repository.Valid()
      ensures !WellFormed(vehicle) ==>
        id == Zero && err != None && err == ValidateSharedVehicle(vehicle).1 && unchanged(repository)
      ensures WellFormed(vehicle) ==>
        && err == None && id == old(repository.nextId) && repository.nextId == id + 1
        && repository.rows == old(repository.rows)[id := SharedVehicleRepository.NewRow(vehicle, now)]
    {
      var (valid, verr) := ValidateSharedVehicle(vehicle);
      if verr != None || !valid {
        return Zero, verr;
      }
      id := repository.InsertSharedVehicle(vehicle, now);
      err := None;
    }

    method ListAllSharedVehicles() returns (vehicles: seq<SharedVehicle>, err: Option<VehicleError>)
      requires repository.Valid()
      ensures err == None && SharedVehicleRepository.IsListing(repository.rows, vehicles)
    {
      vehicles := repository.ListAllSharedVehicles();
      err := None;
    }

    method GetSharedVehicle(vehicleId: int) returns (vehicle: SharedVehicle, err: Option<VehicleError>)
      requires repository.Valid()
      ensures err == None && vehicle == SharedVehicleRepository.Lookup(repository.rows, vehicleId)
    {
      vehicle := repository.GetSharedVehicle(vehicleId);
      err := None;
    }

    /** An invalid vehicle never reaches the repository. */
    method UpdateSharedVehicleLocation(vehicle: SharedVehicle, now: Time) returns (found: bool, err: Option<VehicleError>)
      requires repository.Valid()
      modifies repository
      ensures repository.Valid() && repository.nextId == old(repository.nextId)
      ensures !WellFormed(vehicle) ==>
        !found && err != None && err == ValidateSharedVehicle(vehicle).1 && unchanged(repository)
      ensures WellFormed(vehicle) ==>
        && err == None
        && found == SharedVehicleRepository.Active(old(repository.rows), vehicle.id)
        && repository.rows == SharedVehicleRepository.Relocated(old(repository.rows), vehicle, now)
    {
      var (valid, verr) := ValidateSharedVehicle(vehicle);
      if verr != None || !valid {
        return false, verr;
      }
      found := repository.UpdateSharedVehicleLocation(vehicle, now);
      err := None;
    }
  }
}
