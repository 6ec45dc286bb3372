/** Byte strings of the source's unit tests that more than one module's examples use. */
module Fixtures {
  import opened Bytes

  /** `b"ACGTACGTACGT"`, the UMI of the matcher's and the header's unit tests. */
  const ExampleUmi: seq<Byte> := [0x41, 0x43, 0x47, 0x54, 0x41, 0x43, 0x47, 0x54, 0x41, 0x43, 0x47, 0x54]

  /** `b"ACGT"` and `b"TTTT"`, the UMIs of the two records of the unit test of `process_batch`. */
  const R1Umi: seq<Byte> := [0x41, 0x43, 0x47, 0x54]
  const R2Umi: seq<Byte> := [0x54, 0x54, 0x54, 0x54]
}
