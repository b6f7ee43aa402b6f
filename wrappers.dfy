/** Optional values: a C# reference that may be null, or a LINQ `FirstOrDefault` that found nothing. */
module Wrappers {

  datatype Option<+T> = None | Some(value: T)
}
