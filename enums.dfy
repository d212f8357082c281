/** The two enumerations shared by the terminal and its callers. */
module TerminalEnums {
  /** The base a written unsigned number is rendered in. */
  datatype NumberFormat = Decimal | Hexadecimal | Octal | Binary

  /** Which design colour the next write uses; also the status of the last typed read. */
  datatype TextState = Normal | Error | Success | Warning
}
