/**
 The static donut catalog shared by the menu carousel and the favourites grid.
 Images are presentation only and are not part of the model.
 */
module Catalog {

  /** One catalog entry: a stable identifier and a display name. */
  datatype Donut = Donut(id: string, name: string)

  /** The mock donut database, in display order. */
  const Donuts: seq<Donut> := [
    Donut("d1", "Classic Glazed"),
    Donut("d2", "Strawberry Sprinkle"),
    Donut("d3", "Chocolate Frost"),
    Donut("d4", "Matcha Magic"),
    Donut("d5", "Coconut Dream"),
    Donut("d6", "Maple Bacon"),
    Donut("d7", "Old Fashioned"),
    Donut("d8", "Blueberry Cakie"),
    Donut("d9", "Vanilla Bean")
  ]

  /** The identifiers of the catalog, in catalog order: nine of them, none repeated. */
  function Ids(): (ids: seq<string>)
    ensures |ids| == 9
    ensures forall i, j :: 0 <= i < j < |ids| ==> ids[i] != ids[j]
  {
    seq(|Donuts|, i requires 0 <= i < |Donuts| => Donuts[i].id)
  }
}
