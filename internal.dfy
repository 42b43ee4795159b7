/**
 * The value types of package `internal` that the contact, address and
 * shared-vehicle packages pass around, and the constants ZERO and EMPTY.
 */
module Internal {

  datatype Option<T> = None | Some(value: T)

  /** `internal.ZERO` and `internal.EMPTY`. */
  const Zero: int := 0
  const Empty: string := ""

  /**
   * An instant as read from the clock. `ZeroTime` stands for Go's zero
   * `time.Time{}`, which is what an unset timestamp field holds.
   */
  type Time = int
  const ZeroTime: Time := 0

  /**
   * A float64 that is only stored and returned, never computed with: kept as
   * its 64-bit IEEE-754 pattern, whose zero pattern is Go's zero value 0.0.
   */
  type Float64 = bv64

  /** `internal.Contact` (its timestamp fields are never filled by any read). */
  datatype Contact = Contact(
    id: int,
    userId: int,
    name: string,
    ddi: string,
    ddd: string,
    phoneNumber: string)

  const ZeroContact: Contact := Contact(Zero, Zero, Empty, Empty, Empty, Empty)

  /** `internal.Address` (its timestamp fields are never filled by any read). */
  datatype Address = Address(
    id: int,
    userId: int,
    street: string,
    number: string,
    cep: string,
    neighborhood: string,
    city: string,
    state: string)

  const ZeroAddress: Address := Address(Zero, Zero, Empty, Empty, Empty, Empty, Empty, Empty)

  /** `internal.VehicleType`, an integer enumeration. */
  type VehicleType = int

  /** `internal.SharedVehicle`. */
  datatype SharedVehicle = SharedVehicle(
    id: int,
    userId: int,
    latitude: Float64,
    longitude: Float64,
    vehicleType: VehicleType,
    reportedAt: Time)

  const ZeroSharedVehicle: SharedVehicle := SharedVehicle(Zero, Zero, 0, 0, Zero, ZeroTime)
}
