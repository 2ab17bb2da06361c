/** The fixed item catalog: item name to price.  It is only ever read. */
module Catalog {
  import opened Wrappers

  /** A catalog entry; the literal sets only the price, so `name` is always empty. */
  datatype Item = Item(name: string, price: int)

  const Items: map<string, Item> := map[
    "t-shirt" := Item("", 80),
    "cup" := Item("", 20),
    "book" := Item("", 50),
    "pen" := Item("", 10),
    "powerbank" := Item("", 200),
    "hoody" := Item("", 300),
    "umbrella" := Item("", 200),
    "socks" := Item("", 10),
    "wallet" := Item("", 50),
    "pink-hoody" := Item("", 500)
  ]

  /** The ten names for sale. */
  const Names: set<string> := {"t-shirt", "cup", "book", "pen", "powerbank", "hoody", "umbrella", "socks", "wallet", "pink-hoody"}

  /** Looking a name up: either the entry, or "not found". */
  function Lookup(name: string): (r: Option<Item>)
    ensures r.Some? <==> name in Names
    ensures r.Some? ==> r.value.price > 0 && r.value.name == ""
  {
    if name in Items then Some(Items[name]) else None
  }

  lemma CatalogHoldsExactlyTenNames()
    ensures Items.Keys == Names && |Names| == 10
  {
  }

  lemma PricesArePositive()
    ensures forall name :: name in Items ==> Items[name].price > 0
  {
  }

  lemma EntryNamesAreEmpty()
    ensures forall name :: name in Items ==> Items[name].name == ""
  {
  }

  lemma SomePrices()
    ensures Items["hoody"].price == 300 && Items["pen"].price == 10 && Items["pink-hoody"].price == 500
  {
  }

  lemma UnknownNamesAreAbsent()
    ensures Lookup("unknown_item") == None && Lookup("sword") == None
  {
  }
}
