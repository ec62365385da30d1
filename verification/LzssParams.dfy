/** The parameters the LZSS encoder and decoder share. */
module LzssParams {
  const N := 4096       // size of the ring
  const F := 18         // longest match
  const THRESHOLD := 2  // matches no longer than this are not worth encoding
}
