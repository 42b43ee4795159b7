/**
 * The shared_vehicle table and the statements `sharedVehicleRepository` runs
 * against it. Reads see active rows only; the update is matched by id alone,
 * with no owner check, and takes over the row for the caller. No statement
 * sets `deleted_at`.
 */
module SharedVehicleRepository {
  import opened Internal
  import opened Collections

  /** A row of `shared_vehicle`. */
  datatype VehicleRow = VehicleRow(
    userId: int,
    latitude: Float64,
    longitude: Float64,
    vehicleType: VehicleType,
    reportedAt: Time,
    createdAt: Time,
    updatedAt: Option<Time>,
    deletedAt: Option<Time>)

  type Table = map<int, VehicleRow>

  /** `WHERE id = $1 AND deleted_at IS NULL`. */
  predicate Active(rows: Table, id: int)
  {
    id in rows && rows[id].deletedAt == None
  }

  /** The row the insert creates: reported and created at `now`, whatever the caller's ReportedAt. */
  function NewRow(v: SharedVehicle, now: Time): VehicleRow
  {
    VehicleRow(v.userId, v.latitude, v.longitude, v.vehicleType, now, now, None, None)
  }

  /**
   * What `GetSharedVehicle(id)` returns: the location, type and report time
   * of an active row, with ID and UserID left zero even on success.
   */
  function Lookup(rows: Table, id: int): (v: SharedVehicle)
    ensures v.id == Zero && v.userId == Zero
    ensures !Active(rows, id) ==> v == ZeroSharedVehicle
  {
    if Active(rows, id) then
      var row := rows[id];
      SharedVehicle(Zero, Zero, row.latitude, row.longitude, row.vehicleType, row.reportedAt)
    else
      ZeroSharedVehicle
  }

  /** How the list query presents the row under `id`: with its id, but no owner. */
  function Listed(rows: Table, id: int): SharedVehicle
    requires id in rows
  {
    var row := rows[id];
    SharedVehicle(id, Zero, row.latitude, row.longitude, row.vehicleType, row.reportedAt)
  }

  /**
   * `vehicles` is exactly what `ListAllSharedVehicles` may return: every
   * active row once, in some order.
   */
  ghost predicate IsListing(rows: Table, vehicles: seq<SharedVehicle>)
  {
    && (forall i :: 0 <= i < |vehicles| ==> Active(rows, vehicles[i].id) && vehicles[i] == Listed(rows, vehicles[i].id))
    && (forall id :: Active(rows, id) ==> exists i :: 0 <= i < |vehicles| && vehicles[i].id == id)
    && (forall i, j :: 0 <= i < j < |vehicles| ==> vehicles[i].id != vehicles[j].id)
  }

  /**
   * The table after `UPDATE shared_vehicle SET user_id, latitude, longitude,
   * reported_at, updated_at WHERE id = $1 AND deleted_at IS NULL`.
   */
  function Relocated(rows: Table, v: SharedVehicle, now: Time): (r: Table)
    ensures r.Keys == rows.Keys
    ensures forall id :: id in rows && id != v.id ==> r[id] == rows[id]
    ensures forall id :: Active(rows, id) <==> Active(r, id)
    ensures !Active(rows, v.id) ==> r == rows
    ensures Active(rows, v.id) ==>
      && r[v.id].userId == v.userId
      && r[v.id].vehicleType == rows[v.id].vehicleType
      && Lookup(r, v.id) == v.(id := Zero, userId := Zero, vehicleType := rows[v.id].vehicleType, reportedAt := now)
      && r[v.id] == rows[v.id].(userId := v.userId, latitude := v.latitude, longitude := v.longitude,
                                reportedAt := now, updatedAt := Some(now))
  {
    if Active(rows, v.id) then
      rows[v.id := rows[v.id].(userId := v.userId, latitude := v.latitude, longitude := v.longitude,
                                reportedAt := now, updatedAt := Some(now))]
    else
      rows
  }

  class Repository {
    var rows: Table
    var nextId: int

    /** Every stored id was issued by the sequence, which starts at 1. */
    ghost predicate Valid()
      reads this
    {
      0 < nextId && forall id :: id in rows ==> 0 < id < nextId
    }

    constructor ()
      ensures Valid() && rows == map[] && nextId == 1
    {
      rows := map[];
      nextId := 1;
    }

    /** `INSERT ... RETURNING id`: the incoming ID and ReportedAt are ignored. */
    method InsertSharedVehicle(vehicle: SharedVehicle, now: Time) returns (id: int)
      requires Valid()
      modifies this
      ensures Valid()
      ensures id == old(nextId) && id > 0 && id !in old(rows)
      ensures rows == old(rows)[id := NewRow(vehicle, now)] && nextId == id + 1
    {
      id := nextId;
      rows := rows[id := NewRow(vehicle, now)];
      nextId := nextId + 1;
    }

    method GetSharedVehicle(vehicleId: int) returns (vehicle: SharedVehicle)
      requires Valid()
      ensures vehicle == Lookup(rows, vehicleId)
    {
      vehicle := ZeroSharedVehicle;
      if vehicleId in rows && rows[vehicleId].deletedAt == None {
        var row := rows[vehicleId];
        vehicle := vehicle.(latitude := row.latitude, longitude := row.longitude,
                            vehicleType := row.vehicleType, reportedAt := row.reportedAt);
      }
    }

    /** The successful result of the list query: the rows are scanned one by one and appended. */
    method ListAllSharedVehicles() returns (vehicles: seq<SharedVehicle>)
      requires Valid()
      ensures IsListing(rows, vehicles)
    {
      vehicles := [];
      var pending := rows.Keys;
      while pending != {}
        invariant pending <= rows.Keys
        invariant forall i :: 0 <= i < |vehicles| ==>
          vehicles[i].id !in pending && Active(rows, vehicles[i].id) && vehicles[i] == Listed(rows, vehicles[i].id)
        invariant forall id :: id in rows && id !in pending && Active(rows, id) ==>
          exists i :: 0 <= i < |vehicles| && vehicles[i].id == id
        invariant forall i, j :: 0 <= i < j < |vehicles| ==> vehicles[i].id != vehicles[j].id
        decreases pending
      {
        assert exists k :: k in pending by {
          var k := PickFrom(pending);
        }
        var id :| id in pending;
        var row := rows[id];
        if row.deletedAt == None {
          var v := SharedVehicle(id, Zero, row.latitude, row.longitude, row.vehicleType, row.reportedAt);
          ghost var before := vehicles;
          vehicles := vehicles + [v];
          forall k | k in rows && k !in pending - {id} && Active(rows, k)
            ensures exists i :: 0 <= i < |vehicles| && vehicles[i].id == k
          {
            if k == id {
              assert vehicles[|vehicles| - 1].id == k;
            } else {
              var i :| 0 <= i < |before| && before[i].id == k;
              assert vehicles[i].id == k;
            }
          }
        }
        pending := pending - {id};
      }
    }

    /** Matched by id among active rows, with no owner check. */
    method UpdateSharedVehicleLocation(vehicle: SharedVehicle, now: Time) returns (found: bool)
      requires Valid()
      modifies this
      ensures Valid() && nextId == old(nextId)
      ensures found == Active(old(rows), vehicle.id)
      ensures rows == Relocated(old(rows), vehicle, now)
    {
      found := vehicle.id in rows && rows[vehicle.id].deletedAt == None;
      if found {
        rows := rows[vehicle.id := rows[vehicle.id].(userId := vehicle.userId, latitude := vehicle.latitude,
          longitude := vehicle.longitude, reportedAt := now, updatedAt := Some(now))];
      }
    }
  }

  /**
   * Nothing in this repository deletes: inserting keeps every active row
   * active and adds one, and the update changes no row's status.
   */
  lemma ActiveRowsOnlyGrow(rows: Table, nextId: int, v: SharedVehicle, w: SharedVehicle, now: Time)
    requires nextId !in rows
    ensures forall id :: Active(rows, id) ==> Active(rows[nextId := NewRow(v, now)], id)
    ensures Active(rows[nextId := NewRow(v, now)], nextId)
    ensures forall id :: Active(rows, id) <==> Active(Relocated(rows, w, now), id)
  {
  }

  /**
   * Any caller can take over an active vehicle: the update succeeds for a
   * row owned by someone else and makes the caller its owner.
   */
  lemma RelocateTakesOwnership(rows: Table, v: SharedVehicle, now: Time)
    requires Active(rows, v.id) && rows[v.id].userId != v.userId
    ensures Relocated(rows, v, now)[v.id].userId == v.userId
  {
  }
}
