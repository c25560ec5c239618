/** The stored client record, keyed by its id in the client table. */
module ClientEntity {
  import opened Common

  /** A client; `vipCheckDate` is the instant of the last VIP check that the
      service chose to record, if any. */
  datatype Client = Client(
    firstName: string,
    lastName: string,
    email: string,
    phone: string,
    isVip: bool,
    vipCheckDate: Option<Instant>
  )
}
