/** Fact values. The engine stores boxed `object`s and compares them with
    the static `object.Equals`; here a value is a datatype whose `==` is
    structural, and `Null` is the null reference. */
module Values {

  datatype Value = Null | Int(i: int) | Text(s: string) | Bool(b: bool)
}
