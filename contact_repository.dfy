/**
 * The contacts table and the statements `contactRepository` runs against it.
 * The table is a map from the SERIAL id to the row; `nextId` is the SERIAL
 * sequence. Every read and write is restricted to active rows (`deleted_at IS
 * NULL`), so soft delete is terminal.
 */
module ContactRepository {
  import opened Internal
  import opened Collections

  /** A row of `contacts`: the owner, the data columns and the three lifecycle timestamps. */
  datatype ContactRow = ContactRow(
    userId: int,
    name: string,
    ddi: string,
    ddd: string,
    phoneNumber: string,
    createdAt: Time,
    updatedAt: Option<Time>,
    deletedAt: Option<Time>)

  type Table = map<int, ContactRow>

  /** `WHERE user_id = $1 AND id = $2 AND deleted_at IS NULL`. */
  predicate Matches(rows: Table, userId: int, id: int)
  {
    id in rows && rows[id].userId == userId && rows[id].deletedAt == None
  }

  /** The row `INSERT INTO contacts (user_id, name, ddi, ddd, phone_number)` creates at time `now`. */
  function NewRow(c: Contact, now: Time): ContactRow
  {
    ContactRow(c.userId, c.name, c.ddi, c.ddd, c.phoneNumber, now, None, None)
  }

  /** What `GetContact(userId, id)` returns. */
  function Lookup(rows: Table, userId: int, id: int): Contact
  {
    if Matches(rows, userId, id) then
      var row := rows[id];
      Contact(id, userId, row.name, row.ddi, row.ddd, row.phoneNumber)
    else
      ZeroContact
  }

  /** The table after `UPDATE contacts SET name, ddi, ddd, phone_number, updated_at = now WHERE ...`. */
  function Updated(rows: Table, c: Contact, now: Time): (r: Table)
    ensures r.Keys == rows.Keys
    ensures forall id :: id in rows && id != c.id ==> r[id] == rows[id]
    ensures !Matches(rows, c.userId, c.id) ==> r == rows
    ensures forall id :: id in rows ==>
      r[id].userId == rows[id].userId && r[id].createdAt == rows[id].createdAt && r[id].deletedAt == rows[id].deletedAt
    ensures Matches(rows, c.userId, c.id) ==> Lookup(r, c.userId, c.id) == c && r[c.id].updatedAt == Some(now)
  {
    if Matches(rows, c.userId, c.id) then
      rows[c.id := rows[c.id].(name := c.name, ddi := c.ddi, ddd := c.ddd,
                                phoneNumber := c.phoneNumber, updatedAt := Some(now))]
    else
      rows
  }

  /** The table after `UPDATE contacts SET deleted_at = now WHERE ...`. */
  function Deleted(rows: Table, userId: int, id: int, now: Time): (r: Table)
    ensures r.Keys == rows.Keys
    ensures forall k :: k in rows && k != id ==> r[k] == rows[k]
    ensures !Matches(rows, userId, id) ==> r == rows
    ensures !Matches(r, userId, id)
    ensures Matches(rows, userId, id) ==> r[id] == rows[id].(deletedAt := Some(now))
  {
    if Matches(rows, userId, id) then rows[id := rows[id].(deletedAt := Some(now))] else rows
  }

  /**
   * `contacts` is exactly what `ListContacts(userId)` may return: every active
   * row of the owner once, as Lookup shows it, in some order.
   */
  ghost predicate IsListing(rows: Table, userId: int, contacts: seq<Contact>)
  {
    && (forall i :: 0 <= i < |contacts| ==>
          Matches(rows, userId, contacts[i].id) && contacts[i] == Lookup(rows, userId, contacts[i].id))
    && (forall id :: Matches(rows, userId, id) ==> exists i :: 0 <= i < |contacts| && contacts[i].id == id)
    && (forall i, j :: 0 <= i < j < |contacts| ==> contacts[i].id != contacts[j].id)
  }

  class Repository {
    var rows: Table
    var nextId: int

    /** Every stored id was issued by the sequence, which starts at 1. */
    ghost predicate Valid()
      reads this
    {
      0 < nextId && forall id :: id in rows ==> 0 < id < nextId
    }

    constructor ()
      ensures Valid() && rows == map[] && nextId == 1
    {
      rows := map[];
      nextId := 1;
    }

    /** `INSERT ... RETURNING id`: the incoming `contact.id` is ignored. */
    method SaveContact(contact: Contact, now: Time) returns (id: int)
      requires Valid()
      modifies this
      ensures Valid()
      ensures id == old(nextId) && id > 0 && id !in old(rows)
      ensures rows == old(rows)[id := NewRow(contact, now)] && nextId == id + 1
    {
      id := nextId;
      rows := rows[id := NewRow(contact, now)];
      nextId := nextId + 1;
    }

    method GetContact(userId: int, contactId: int) returns (contact: Contact)
      requires Valid()
      ensures contact == Lookup(rows, userId, contactId)
    {
      if contactId in rows && rows[contactId].userId == userId && rows[contactId].deletedAt == None {
        var row := rows[contactId];
        contact := Contact(contactId, userId, row.name, row.ddi, row.ddd, row.phoneNumber);
      } else {
        contact := ZeroContact;
      }
    }

    /** The successful result of the list query: the rows are scanned one by one and appended. */
    method ListContacts(userId: int) returns (contacts: seq<Contact>)
      requires Valid()
      ensures IsListing(rows, userId, contacts)
    {
      contacts := [];
      var pending := rows.Keys;
      while pending != {}
        invariant pending <= rows.Keys
        invariant forall i :: 0 <= i < |contacts| ==>
          contacts[i].id !in pending && Matches(rows, userId, contacts[i].id)
          && contacts[i] == Lookup(rows, userId, contacts[i].id)
        invariant forall id :: id in rows && id !in pending && Matches(rows, userId, id) ==>
          exists i :: 0 <= i < |contacts| && contacts[i].id == id
        invariant forall i, j :: 0 <= i < j < |contacts| ==> contacts[i].id != contacts[j].id
        decreases pending
      {
        assert exists k :: k in pending by {
          var k := PickFrom(pending);
        }
        var id :| id in pending;
        var row := rows[id];
        if row.userId == userId && row.deletedAt == None {
          var c := Contact(id, Zero, row.name, row.ddi, row.ddd, row.phoneNumber);
          c := c.(userId := userId);
          ghost var before := contacts;
          contacts := contacts + [c];
          forall k | k in rows && k !in pending - {id} && Matches(rows, userId, k)
            ensures exists i :: 0 <= i < |contacts| && contacts[i].id == k
          {
            if k == id {
              assert contacts[|contacts| - 1].id == k;
            } else {
              var i :| 0 <= i < |before| && before[i].id == k;
              assert contacts[i].id == k;
            }
          }
        }
        pending := pending - {id};
      }
    }

    method UpdateContact(contact: Contact, now: Time) returns (found: bool)
      requires Valid()
      modifies this
      ensures Valid() && nextId == old(nextId)
      ensures found == Matches(old(rows), contact.userId, contact.id)
      ensures rows == Updated(old(rows), contact, now)
    {
      found := Matches(rows, contact.userId, contact.id);
      if found {
        rows := rows[contact.id := rows[contact.id].(name := contact.name, ddi := contact.ddi,
          ddd := contact.ddd, phoneNumber := contact.phoneNumber, updatedAt := Some(now))];
      }
    }

    method DeleteContact(userId: int, contactId: int, now: Time) returns (found: bool)
      requires Valid()
      modifies this
      ensures Valid() && nextId == old(nextId)
      ensures found == Matches(old(rows), userId, contactId)
      ensures rows == Deleted(old(rows), userId, contactId, now)
    {
      found := Matches(rows, userId, contactId);
      if found {
        rows := rows[contactId := rows[contactId].(deletedAt := Some(now))];
      }
    }
  }

  /** A saved contact reads back with its fresh id and the caller's fields. */
  lemma SaveThenGet(rows: Table, id: int, c: Contact, now: Time)
    requires id !in rows
    ensures Lookup(rows[id := NewRow(c, now)], c.userId, id) == c.(id := id)
    ensures forall k :: k in rows ==> rows[id := NewRow(c, now)][k] == rows[k]
  {
  }

  /**
   * Once deleted, a contact is gone for good: Get returns the zero contact, no
   * listing holds it, and further updates and deletes match nothing.
   */
  lemma DeleteIsTerminal(rows: Table, userId: int, id: int, now: Time, later: Time, c: Contact)
    requires Matches(rows, userId, id)
    ensures var r := Deleted(rows, userId, id, now);
      && Lookup(r, userId, id) == ZeroContact
      && (forall cs: seq<Contact> :: IsListing(r, userId, cs) ==> forall i :: 0 <= i < |cs| ==> cs[i].id != id)
      && (c.id == id ==> Updated(r, c, later) == r)
      && Deleted(r, userId, id, later) == r
  {
  }

  /** Removing one row from consideration keeps a listing a listing of the rest. */
  lemma ListingWithout(rows: Table, userId: int, cs: seq<Contact>, k: int)
    requires IsListing(rows, userId, cs) && 0 <= k < |cs|
    ensures IsListing(rows - {cs[k].id}, userId, cs[..k] + cs[k + 1..])
  {
    var rest := rows - {cs[k].id};
    var ds := cs[..k] + cs[k + 1..];
    assert forall i :: 0 <= i < |ds| ==> ds[i] == (if i < k then cs[i] else cs[i + 1]);
    forall id | Matches(rest, userId, id)
      ensures exists i :: 0 <= i < |ds| && ds[i].id == id
    {
      assert Matches(rows, userId, id);
      var i :| 0 <= i < |cs| && cs[i].id == id;
      if i < k {
        assert ds[i].id == id;
      } else {
        assert i != k;
        assert ds[i - 1].id == id;
      }
    }
  }

  /**
   * The order of a listing is unspecified, but its contents are not: any two
   * listings of the same table and owner are permutations of each other.
   */
  lemma {:induction false} ListingsArePermutations(rows: Table, userId: int, a: seq<Contact>, b: seq<Contact>)
    requires IsListing(rows, userId, a) && IsListing(rows, userId, b)
    ensures multiset(a) == multiset(b)
    decreases |a|
  {
    if a == [] {
      if b != [] {
        var j := ListingsShareHead(rows, userId, b, a);
        assert false;
      }
    } else {
      var j := ListingsShareHead(rows, userId, a, b);
      ListingWithout(rows, userId, a, 0);
      ListingWithout(rows, userId, b, j);
      assert a[..0] + a[1..] == a[1..];
      ListingsArePermutations(rows - {a[0].id}, userId, a[1..], b[..j] + b[j + 1..]);
      SameHeadSamePermutation(a, b, j);
    }
  }

  /** The first contact of one listing appears, identically, in any other. */
  lemma ListingsShareHead(rows: Table, userId: int, a: seq<Contact>, b: seq<Contact>) returns (j: int)
    requires IsListing(rows, userId, a) && IsListing(rows, userId, b) && a != []
    ensures 0 <= j < |b| && b[j] == a[0]
  {
    assert Matches(rows, userId, a[0].id);
    j :| 0 <= j < |b| && b[j].id == a[0].id;
  }
}
