/** What several modules share: an optional value, bytes, the system's status codes. */
module Basics {

  datatype Option<+T> = None | Some(value: T) {
    function Or(other: T): T { if Some? then value else other }
  }

  type Byte = b: nat | b < 256

  type Bytes = seq<Byte>

  const MAX_64 := 0xffff_ffff_ffff_ffff

  type Uint64 = n: nat | n <= MAX_64

  /** A table: a business type and a partition. */
  datatype Table = Table(business: Byte, partition: Uint64)

  /** Outcomes of reads, writes and searches. */
  datatype Status = OK | DocumentExist | DocumentNotExist | RocksDBError | IDCanNotZero | DataError | TokenizerError
    | OtherDocumentError | DocumentTooLarge | ReachMaxDocListSizeLimit

  function Least(a: nat, b: nat): nat { if a < b then a else b }

  function Union(ss: seq<set<nat>>): set<nat> { set i, x | 0 <= i < |ss| && x in ss[i] :: x }
}
