/** The persisted records: one tracked shipment per upper-cased tracking code. */
module Store {
  import opened Wrappers

  type Code = string

  /** Wall-clock time, in whole minutes. */
  type Minutes = int

  /**
   * A tracked shipment: its nickname (`apelido`), last known status text,
   * the delivered flag (`entregue`) and the time of the last successful
   * lookup (`last_check`, None when never polled).
   */
  datatype Item = Item(nickname: string, status: string, delivered: bool, lastCheck: Option<Minutes>)

  /** Status of a freshly added item. */
  const Awaiting: string := "Aguardando"

  /** The record the add form installs. */
  function Fresh(nickname: string): Item {
    Item(nickname, Awaiting, false, None)
  }
}
