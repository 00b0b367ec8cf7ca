/**
  The JSON catalogue: an object keyed by platform id whose values are platform
  records, each with a list of item records. Every field is a string; a
  missing field reads as "" and a missing `items` list as [].
 */
module Catalog {

  datatype Item = Item(name: string, code: string, gamingType: string, id: string)

  datatype Platform = Platform(code: string, id: string, gamingType: string, name: string, items: seq<Item>)

  /** The root object, platform id -> record, in file order. */
  type Catalog = seq<(string, Platform)>

  /** Every item of every platform, platforms in catalogue order. */
  function AllItems(cat: Catalog): seq<Item> {
    if cat == [] then [] else cat[0].1.items + AllItems(cat[1..])
  }
}
