/** JSON values as `json.dump` writes them and `json.load` reads them back. */
module JsonValues {

  datatype Json =
    | Null
    | Bool(b: bool)
    | Number(n: int)
    | Text(s: string)
    | Array(items: seq<Json>)
    | Object(members: map<string, Json>)
}
