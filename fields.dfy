/** Fields of an already-parsed JSON message or request body. */
module Fields {

  /** A field that may be missing from the JSON object. */
  datatype Option<+T> = None | Some(value: T)

  /** JavaScript truthiness of a string field: present and not the empty string. */
  predicate Truthy(field: Option<string>) {
    field.Some? && field.value != ""
  }
}
