/**
 * The delivery record of the backend. A `DeliveryObject` carries the
 * fields of the pydantic model in src/backend/models.py; validation and
 * type coercion done by pydantic are not modelled.
 */
module Models {
  import opened Wrappers

  /** A calendar date. Only equality of dates is ever used by the store. */
  datatype Date = Date(year: int, month: int, day: int)

  /** A point in time (the `last_update` timestamp); opaque to every operation. */
  datatype Instant = Instant(microseconds: int)

  /**
   * Delivery status. The code defines it as a plain string alias, with no
   * enumeration of legal values.
   */
  type Status = string

  datatype DeliveryObject = DeliveryObject(
    id: string,
    carrier: string,
    trackingId: string,
    dateExpected: Date,
    timeWindow: Option<string>,
    status: Status,
    mailAccount: string,
    rawMetadata: map<string, string>,
    lastUpdate: Instant
  )

  /** Two records describe the same parcel when carrier and tracking number agree. */
  predicate SameParcel(a: DeliveryObject, b: DeliveryObject) {
    a.carrier == b.carrier && a.trackingId == b.trackingId
  }
}
