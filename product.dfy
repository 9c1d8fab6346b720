/** The product entity of src/types/product.ts: three required text fields,
    an `id`, and any number of further string-valued fields. */
module ProductType {
  import opened JsString

  /** The runtime value held in a product's `id` field. The declared type says
      every field is a string, but the remote service hands out numeric ids, and
      an object posted without one has none. */
  datatype IdValue = NumberId(n: SafeInteger) | StringId(s: string) | NoId

  /** The fields besides the four named ones. A JavaScript object holds one
      value per key, so none of the named keys appears here as well. */
  type OtherFields = m: map<string, string> | "id" !in m && "title" !in m && "description" !in m && "image" !in m
    witness map[]

  datatype Product = Product(
    id: IdValue,
    title: string,
    description: string,
    image: string,
    others: OtherFields)

  /** `String(product.id)`: the key that delete compares its payload with. */
  function IdKey(p: Product): string
  {
    match p.id
    case NumberId(n) => IntToString(n)
    case StringId(s) => s
    case NoId => "undefined"
  }

  /** A string id that matches a numeric id reads back as that number. */
  lemma NumberAndStringIdsAgree(p: Product, q: Product)
    requires p.id.NumberId? && q.id.StringId?
    ensures IdKey(p) == IdKey(q) ==> ParseInt(q.id.s) == Some(p.id.n)
  {
    IntToStringRoundTrip(p.id.n);
  }

  /** Products with numeric ids share a key exactly when their ids are equal. */
  lemma NumberIdKeysDistinct(p: Product, q: Product)
    requires p.id.NumberId? && q.id.NumberId?
    ensures IdKey(p) == IdKey(q) <==> p.id.n == q.id.n
  {
    IntToStringInjective(p.id.n, q.id.n);
  }
}
