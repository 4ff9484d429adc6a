/** The multi-valued logic states of RTLIL, in the order of their encoding. */
module Rtlil {
  datatype State = S0 | S1 | Sx | Sz | Sa | Sm {
    /** The source writes `<= State::S1`. */
    predicate Defined() { S0? || S1? }
  }

  function OfBool(b: bool): State {
    if b then S1 else S0
  }

  predicate FullyDefined(s: seq<State>) {
    forall i :: 0 <= i < |s| ==> s[i].Defined()
  }
}
