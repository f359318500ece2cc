/** Catalog records as the artworks API returns them, and the mapping of a
    fetched page of records to the rows the table displays. */
module Catalog {

  /** A JavaScript value as it can stand in a field of a catalog record.
      Numbers are integers here (the catalog's ids and years are). */
  datatype Value = Undefined | Null | Bool(b: bool) | Num(n: int) | Str(s: string)

  /** JavaScript truthiness of a value: exactly five values are falsy. */
  predicate Truthy(v: Value)
    ensures !Truthy(v) <==> v == Undefined || v == Null || v == Bool(false) || v == Num(0) || v == Str("")
  {
    match v
    case Undefined => false
    case Null => false
    case Bool(b) => b
    case Num(n) => n != 0
    case Str(s) => s != ""
  }

  /** The expression `v || fallback`: the left operand when it is truthy,
      otherwise the fallback string. */
  function OrElse(v: Value, fallback: string): (r: Value)
    ensures r == v || r == Str(fallback)
    ensures Truthy(v) ==> r == v
    ensures !Truthy(v) ==> r == Str(fallback)
    ensures Truthy(r) <==> Truthy(v) || fallback != ""
  {
    if Truthy(v) then v else Str(fallback)
  }

  /** The fields of one raw catalog record that the table reads. */
  datatype Record = Record(
    id: int,
    title: Value,
    placeOfOrigin: Value,
    artistDisplay: Value,
    inscriptions: Value,
    dateStart: Value,
    dateEnd: Value)

  /** A displayed row: `no` is the 1-based ordinal, `id` the catalog id. */
  datatype Row = Row(
    no: int,
    id: int,
    name: Value,
    place: Value,
    artist: Value,
    inscriptions: Value,
    startDate: Value,
    endDate: Value)

  const UnknownArtist: string := "Unknown"
  const Missing: string := "-"

  /** The row built for one record with ordinal `no`.  The id, title and
      place of origin are copied as they are; each of the four defaulted
      fields is always truthy, equals the record's field exactly when that
      field is truthy, and is the default text otherwise. */
  function ToRow(item: Record, no: int): (r: Row)
    ensures r.no == no && r.id == item.id
    ensures r.name == item.title && r.place == item.placeOfOrigin
    ensures Truthy(r.artist) && Truthy(r.inscriptions) && Truthy(r.startDate) && Truthy(r.endDate)
    ensures r.artist == item.artistDisplay <==> Truthy(item.artistDisplay)
    ensures !Truthy(item.artistDisplay) ==> r.artist == Str(UnknownArtist)
    ensures r.inscriptions == item.inscriptions <==> Truthy(item.inscriptions)
    ensures !Truthy(item.inscriptions) ==> r.inscriptions == Str(Missing)
    ensures r.startDate == item.dateStart <==> Truthy(item.dateStart)
    ensures !Truthy(item.dateStart) ==> r.startDate == Str(Missing)
    ensures r.endDate == item.dateEnd <==> Truthy(item.dateEnd)
    ensures !Truthy(item.dateEnd) ==> r.endDate == Str(Missing)
  {
    Row(no, item.id, item.title, item.placeOfOrigin,
        OrElse(item.artistDisplay, UnknownArtist),
        OrElse(item.inscriptions, Missing),
        OrElse(item.dateStart, Missing),
        OrElse(item.dateEnd, Missing))
  }

  /** The rows of a fetched page, where `first` is the table offset in
      effect when the fetch was issued: one row per record, in the same
      order, the i-th (from 0) with ordinal first + i + 1. */
  function MapPage(items: seq<Record>, first: int): (rows: seq<Row>)
    ensures |rows| == |items|
    ensures forall i :: 0 <= i < |items| ==> rows[i] == ToRow(items[i], first + i + 1)
    ensures forall i :: 0 <= i < |items| ==> rows[i].id == items[i].id && rows[i].no == first + i + 1
    decreases |items|
  {
    if items == [] then []
    else [ToRow(items[0], first + 1)] + MapPage(items[1..], first + 1)
  }
}
