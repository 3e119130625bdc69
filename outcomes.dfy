// Optional values, results, and the fatal conditions under which the
// address-space code halts the kernel (an `ASSERT` that fails).
module Outcomes {

  datatype Option<+T> = None | Some(value: T)

  datatype Result<+T, +E> = Success(value: T) | Failure(error: E)

  datatype Fatal =
    | SpaceIdsExhausted     // all 128 identifiers are in use
    | BadMagic              // the header magic is wrong in both byte orders
    | SwapFileNotCreated    // the file system refused to create the swap file
    | TooManyPages          // numPages > NumPhysPages
    | FramesExhausted       // the frame bitmap had no clear bit for a resident page
}
