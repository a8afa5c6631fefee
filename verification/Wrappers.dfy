/** Results that may be missing, and results of operations that may report an error code. */
module Wrappers {

  /** The error codes the modelled functions return. */
  datatype Error =
    | Generic
    | Corruption
    | SrcSizeWrong
    | DstSizeTooSmall
    | TableLogTooLarge
    | MaxSymbolValueTooSmall
    | MaxSymbolValueTooLarge

  datatype Option<+T> = None | Some(value: T)

  datatype Result<+T> = Ok(value: T) | Err(error: Error)
}
