/** The record shape shared by the data source and the table (lib/types.ts). */
module Types {

  /** Stands for a JavaScript `T | null` result. */
  datatype Option<T> = None | Some(value: T)

  /** The two values the `status` field may take. */
  datatype Status = Active | Inactive

  /** The string a status is written as, which is also what the table compares and filters on. */
  function StatusText(s: Status): (r: string)
    ensures r == "Active" || r == "Inactive"
    ensures (r == "Active") <==> s == Active
  {
    match s
    case Active => "Active"
    case Inactive => "Inactive"
  }

  /** One inventory record; `itemType` is the record's `type` field (a Dafny keyword). */
  datatype Item = Item(id: int, name: string, itemType: string, status: Status, lastUpdated: string)
}
