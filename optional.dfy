/** An optional value: stands for a TypeScript `T | null` or an optional (`?`) field. */
module Optional {

  datatype Option<T> = None | Some(value: T)

}
