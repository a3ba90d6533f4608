/**
 The constants of config/constant.go and the storage configuration of
 config/config.go. The Go code spells temperatures and action kinds as
 strings; here each is a closed datatype.
 */
module Config {

  /** Temperature requirement of an order. */
  datatype Temperature = Hot | Cold | Room

  /** Kind of an entry in the action log. */
  datatype ActionKind = Place | Move | Pickup | Discard

  /** Unit counts and per-unit capacities of the three storage groups. */
  datatype FulfillmentConfig = FulfillmentConfig(
    numCoolers: int, coolerCap: int,
    numHeaters: int, heaterCap: int,
    numShelves: int, shelfCap: int)
}
