/** Destination verdicts shared by every rail (`patala-core/src/destination.rs`). */
module Destination {
  datatype Status = Malformed | WrongNetwork | NotAWallet | StructurallyValid | Unknown

  /** `is_refusal`: the rail positively established a defect. */
  predicate IsRefusal(s: Status) {
    s.Malformed? || s.WrongNetwork? || s.NotAWallet?
  }
}
