/** The messages of the data phase, as the parsers of detail/message.cpp hand them to the tasks.
    A member id is the 32-bit number that identifies a receiver. */
module Messages {
  import opened Common

  /** complete::sub_status */
  const NORMAL := 0
  const REJECTED := 3

  datatype Message =
    | FileInfo(infoId: nat, sizeHigh: nat, sizeLow: nat, infoFor: seq<nat>)
    | FileInfoAck(ackFrom: nat, ackId: nat, ackDone: bool)
    | FileSeg(segId: nat, sect: nat, blk: nat, data: seq<Byte>)
    | Done(doneId: nat, lastSect: nat, doneFor: seq<nat>)
    | Status(statusFrom: nat, statusId: nat, statusSect: nat, nakMap: seq<Byte>)
    | Complete(completeFrom: nat, completeId: nat, sub: nat)
}
