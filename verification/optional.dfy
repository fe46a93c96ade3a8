/** The "maybe a value" type used where the C# code returns or stores `null`. */
module Optional {

  datatype Option<+T> = None | Some(value: T)
}
