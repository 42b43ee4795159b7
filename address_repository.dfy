/**
 * The address table and the statements `addressRepository` runs against it.
 * Unlike contacts, neither the lookup nor the update looks at `deleted_at`,
 * and the update matches the id the caller passed in, not the id the lookup
 * found.
 */
module AddressRepository {
  import opened Internal

  /** A row of `address`: the owner, the data columns and the three lifecycle timestamps. */
  datatype AddressRow = AddressRow(
    userId: int,
    street: string,
    number: string,
    cep: string,
    neighborhood: string,
    city: string,
    state: string,
    createdAt: Time,
    updatedAt: Option<Time>,
    deletedAt: Option<Time>)

  type Table = map<int, AddressRow>

  /** `WHERE user_id = $1`: some row, deleted or not, belongs to the user. */
  predicate HasAddress(rows: Table, userId: int)
  {
    exists id | id in rows :: rows[id].userId == userId
  }

  /** `WHERE id = $1 AND user_id = $2`, the update's match, again blind to `deleted_at`. */
  predicate UpdateMatches(rows: Table, a: Address)
  {
    a.id in rows && rows[a.id].userId == a.userId
  }

  /** The row `INSERT INTO address (user_id, street, ...)` creates at time `now`. */
  function NewRow(a: Address, now: Time): AddressRow
  {
    AddressRow(a.userId, a.street, a.number, a.cep, a.neighborhood, a.city, a.state, now, None, None)
  }

  /** The `SET street, number, cep, neighborhood, city, state` of the update. */
  function Overwrite(row: AddressRow, a: Address): AddressRow
  {
    row.(street := a.street, number := a.number, cep := a.cep,
         neighborhood := a.neighborhood, city := a.city, state := a.state)
  }

  /** How the lookup presents the row stored under `id`. */
  function View(rows: Table, id: int): Address
    requires id in rows
  {
    var row := rows[id];
    Address(id, row.userId, row.street, row.number, row.cep, row.neighborhood, row.city, row.state)
  }

  /**
   * `address` is a possible answer of `GetAddress(userId)`: when the user has
   * rows, one of them (the engine picks which); otherwise the zero address.
   */
  predicate IsLookup(rows: Table, userId: int, address: Address)
  {
    if HasAddress(rows, userId) then
      address.id in rows && rows[address.id].userId == userId && address == View(rows, address.id)
    else
      address == ZeroAddress
  }

  /** The table, the sequence and the returned id after `AddOrUpdateAddress`. */
  datatype Upserted = Upserted(rows: Table, nextId: int, id: int)

  /** At most one address row per user. */
  ghost predicate OneAddressPerUser(rows: Table)
  {
    forall i, j :: i in rows && j in rows && rows[i].userId == rows[j].userId ==> i == j
  }

  /**
   * `AddOrUpdateAddress` as written: insert when the user has no row; else
   * update the row whose id is the incoming `a.id`, if it belongs to the
   * user, and return `a.id`; else change nothing and return zero.
   */
  function Upsert(rows: Table, nextId: int, a: Address, now: Time): (r: Upserted)
    requires nextId !in rows
    ensures !HasAddress(rows, a.userId) ==> r.id == nextId && r.nextId == nextId + 1
    ensures !HasAddress(rows, a.userId) ==>
      && r.rows.Keys == rows.Keys + {nextId}
      && r.rows[nextId].createdAt == now && r.rows[nextId].updatedAt == None && r.rows[nextId].deletedAt == None
      && r.rows == rows[nextId := NewRow(a, now)]
    ensures HasAddress(rows, a.userId) ==> r.nextId == nextId && r.rows.Keys == rows.Keys
    ensures HasAddress(rows, a.userId) && UpdateMatches(rows, a) ==>
      r.id == a.id && r.rows == rows[a.id := Overwrite(rows[a.id], a)]
    ensures HasAddress(rows, a.userId) && !UpdateMatches(rows, a) ==> r.id == Zero && r.rows == rows
    ensures forall id :: id in rows && id != r.id ==> id in r.rows && r.rows[id] == rows[id]
    ensures forall id :: id in rows ==>
      && r.rows[id].userId == rows[id].userId && r.rows[id].createdAt == rows[id].createdAt
      && r.rows[id].updatedAt == rows[id].updatedAt && r.rows[id].deletedAt == rows[id].deletedAt
    ensures r.id != Zero ==> r.id in r.rows && View(r.rows, r.id) == a.(id := r.id)
  {
    if !HasAddress(rows, a.userId) then
      Upserted(rows[nextId := NewRow(a, now)], nextId + 1, nextId)
    else if UpdateMatches(rows, a) then
      Upserted(rows[a.id := Overwrite(rows[a.id], a)], nextId, a.id)
    else
      Upserted(rows, nextId, Zero)
  }

  class Repository {
    var rows: Table
    var nextId: int

    /** Every stored id was issued by the sequence, which starts at 1. */
    ghost predicate Valid()
      reads this
    {
      0 < nextId && forall id :: id in rows ==> 0 < id < nextId
    }

    constructor ()
      ensures Valid() && rows == map[] && nextId == 1
    {
      rows := map[];
      nextId := 1;
    }

    method GetAddress(userId: int) returns (address: Address)
      requires Valid()
      ensures IsLookup(rows, userId, address)
    {
      if id :| id in rows && rows[id].userId == userId {
        var row := rows[id];
        address := Address(id, userId, row.street, row.number, row.cep, row.neighborhood, row.city, row.state);
      } else {
        address := ZeroAddress;
      }
    }

    /**
     * Read, then insert or update. Ids start at 1, so the lookup's id is zero
     * exactly when the user has no row.
     */
    method AddOrUpdateAddress(address: Address, now: Time) returns (id: int)
      requires Valid()
      modifies this
      ensures Valid()
      ensures Upserted(rows, nextId, id) == Upsert(old(rows), old(nextId), address, now)
    {
      var stored := GetAddress(address.userId);
      if stored.id == Zero {
        id := nextId;
        rows := rows[id := NewRow(address, now)];
        nextId := nextId + 1;
      } else if address.id in rows && rows[address.id].userId == address.userId {
        rows := rows[address.id := Overwrite(rows[address.id], address)];
        id := address.id;
      } else {
        id := Zero;
      }
    }
  }

  /**
   * The upsert keeps every user at one address row at most, provided the
   * sequence's next id is not yet in the table.
   */
  lemma UpsertKeepsOneAddressPerUser(rows: Table, nextId: int, a: Address, now: Time)
    requires OneAddressPerUser(rows) && nextId !in rows
    ensures OneAddressPerUser(Upsert(rows, nextId, a, now).rows)
  {
  }

  /**
   * The handler fills only the owner and the fields, so the incoming id is
   * zero: with a stored row for the user, the upsert then returns zero and
   * the stored address keeps its old street.
   */
  lemma UpsertWithoutIdLeavesStoredAddress(now: Time)
    ensures var rows := map[10 := AddressRow(1, "Rua A", "1", "12345678", "Centro", "Porto Alegre", "RS", 0, None, None)];
      var a := Address(0, 1, "Rua B", "1", "12345678", "Centro", "Porto Alegre", "RS");
      var r := Upsert(rows, 11, a, now);
      r.id == Zero && r.rows == rows && r.rows[10].street == "Rua A"
  {
    var rows := map[10 := AddressRow(1, "Rua A", "1", "12345678", "Centro", "Porto Alegre", "RS", 0, None, None)];
    assert rows[10].userId == 1;
  }

  /** The row the lookup finds for a user who has one. */
  ghost function StoredId(rows: Table, userId: int): (id: int)
    requires HasAddress(rows, userId)
    ensures id in rows && rows[id].userId == userId
  {
    var id :| id in rows && rows[id].userId == userId; id
  }

  /**
   * The upsert as intended: the update matches the row the lookup found, so
   * the stored address is overwritten and its id returned.
   */
  ghost function IntendedUpsert(rows: Table, nextId: int, a: Address, now: Time): (r: Upserted)
    ensures !HasAddress(rows, a.userId) ==> r.id == nextId && r.nextId == nextId + 1
    ensures HasAddress(rows, a.userId) ==> r.nextId == nextId && r.rows.Keys == rows.Keys
  {
    if !HasAddress(rows, a.userId) then
      Upserted(rows[nextId := NewRow(a, now)], nextId + 1, nextId)
    else
      var id := StoredId(rows, a.userId);
      Upserted(rows[id := Overwrite(rows[id], a)], nextId, id)
  }

  /**
   * With the intended upsert, two calls for the same user leave exactly one
   * row for that user, holding the second call's fields under the id the
   * first call returned.
   */
  lemma IntendedUpsertTwice(rows: Table, nextId: int, a: Address, b: Address, now: Time, later: Time)
    requires OneAddressPerUser(rows) && (forall id :: id in rows ==> id < nextId)
    requires a.userId == b.userId
    ensures var first := IntendedUpsert(rows, nextId, a, now);
      var second := IntendedUpsert(first.rows, first.nextId, b, later);
      && second.id == first.id
      && second.id in second.rows
      && View(second.rows, second.id) == b.(id := first.id)
      && (forall id :: id in second.rows && second.rows[id].userId == b.userId ==> id == second.id)
  {
    var first := IntendedUpsert(rows, nextId, a, now);
    assert first.id in first.rows && first.rows[first.id].userId == a.userId;
    assert OneAddressPerUser(first.rows);
    assert StoredId(first.rows, b.userId) == first.id;
  }
}
