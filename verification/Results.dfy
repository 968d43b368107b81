/** Success or one of the client's error codes (owerr.c, ownet.h). */
module Results {
  datatype Result<+T> = Ok(value: T) | Err(error: Error)

  datatype Error =
    | LinkFailed
    | InvalidPacketLength
    | PacketLengthExceedsPage
    | CrcFailed
    | OutOfSpace
    | BufferTooSmall
    | TooLargeBitNum
    | FileReadErr
    | NoDirectoryEntry
    | FileNotFound
    | WrongType
    | ReadOnly
}
