/** Optional values, standing in for the `undefined`/`null` fields of the
    application's records and the `T | null` results of its lookups. */
module Base {

  datatype Option<+T> = None | Some(value: T)
}
