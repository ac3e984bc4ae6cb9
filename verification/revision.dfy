/**
  The node codec is modelled twice over: as the repository writes it, and with
  the corrections its decoder evidently expects. Every codec function takes the
  revision to follow; the rest of the model uses `Corrected`.
 */
module Revision {
  datatype Revision =
      // the encoder and decoder exactly as written
    | AsWritten
      // sixteen-bit list sizes write both bytes, the twenty-bit limit is 2^20 - 1,
      // thirty-two-bit lengths use four bytes on both sides, and an odd nibble
      // string's last character is read from the NUMBERS table
    | Corrected
}
