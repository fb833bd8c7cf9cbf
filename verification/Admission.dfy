/** Decoder limits (`limits.go`); no field has a default here. */
module Admission {
  /** The largest machine word, which no limit may be where one more is added to it. */
  const MAX_INT: int := 0x7FFF_FFFF_FFFF_FFFF

  datatype Limits = Limits(
    maxEventBytes: int, maxDataBytes: int,
    maxAttributes: int, maxAttributeNameBytes: int, maxAttributeValueBytes: int,
    maxDepth: int, maxBatchEvents: int,
    maxKafkaKeyBytes: int, maxKafkaHeaders: int, maxKafkaHeaderNameBytes: int, maxKafkaHeaderValueBytes: int)
}
