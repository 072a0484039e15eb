// Vocabulary that the modules share.
module Prelude {

  datatype Option<+T> = None | Some(value: T)

  // Other stands for any string that is not one of the two directions.
  datatype Direction = Outbound | Inbound | Other(name: string)

  datatype Action = Hold | Reject | Tag | Allow

  lemma {:induction false} SubsetSize<T>(a: set<T>, b: set<T>)
    requires a <= b
    ensures |a| <= |b|
  {
    assert a + (b - a) == b;
  }
}
