/** What channels carry and evidence is made of. */
module Bytes {
  type byte = b: nat | b < 256
}
