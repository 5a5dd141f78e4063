/** The few PHP value semantics the plugin's logic depends on. */
module PhpValues {

  /** A PHP value as it appears inside a group record sent to the browser:
      a string, an integer, or a list of values. */
  datatype Value = Str(s: string) | Int(n: int) | List(items: seq<Value>)

  /** A PHP associative array with string keys, such as a group detail record
      `array( 'id' => ..., 'display_name' => ..., ... )`. Key order is not kept. */
  type Record = map<string, Value>

  /** PHP truthiness of a string: only "" and "0" are falsy, which is also
      exactly when `empty()` holds for a string. */
  predicate Truthy(s: string)
  {
    s != "" && s != "0"
  }

  /** WordPress's `absint`: the absolute value of the integer a request field
      parses to. */
  function Absint(i: int): (n: nat)
    ensures n == i || n == -i
  {
    if i < 0 then -i else i
  }
}
