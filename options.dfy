/// Optional values: the model's stand-in for a C# null reference or an out
/// parameter that is only meaningful when the call reports success.
module Options {
  datatype Option<T> = None | Some(value: T)
}
