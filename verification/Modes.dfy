/** Two readings of the code that a model can take. */
module Modes {

  /** `AsWritten` is the code as it stands, defects included; `Intended` repairs what is evidently a slip. */
  datatype Mode = AsWritten | Intended
}
