/** The JavaScript values `setGraph` is handed: numbers, strings and arrays,
    nested as the caller likes. A node or vertex name is used as a property
    key, which turns it into a string. */
module JsInput {
  import opened Text

  /** A JavaScript value as far as `setGraph` looks at it. Numbers are
      non-negative integers. */
  datatype Value = Number(n: nat) | Str(s: string) | Array(items: seq<Value>)

  /** `typeof v === 'object'`: true of arrays only. */
  predicate IsObject(v: Value) {
    v.Array?
  }

  /** The property key a value turns into (its `toString`): a number's
      decimal digits, a string itself, an array its elements' keys joined
      with commas. A number's key is all digits, has no leading zero, and
      reads back as the number. */
  function Key(v: Value): (k: string)
    ensures v.Number? ==> IsDigits(k) && |k| >= 1 && (|k| > 1 ==> k[0] != '0') && ParseNat(k) == v.n
    ensures v.Str? ==> k == v.s
    decreases v, 1
  {
    match v
    case Number(n) =>
      ParseNatToString(n);
      NatToString(n)
    case Str(s) => s
    case Array(items) => Joined(items)
  }

  /** `items.join(',')` over the keys of the items. */
  function Joined(items: seq<Value>): string
    decreases items, 0
  {
    if items == [] then ""
    else if |items| == 1 then Key(items[0])
    else
      assert items[|items| - 1] in items;
      Joined(items[..|items| - 1]) + "," + Key(items[|items| - 1])
  }
}
