/** The 2048-byte circular buffers shared by the JTAG UART driver's thread-level
    code and its interrupt routine.  A ring holds at most BUF_LEN - 1 bytes, so
    equal indices always mean empty. */
module Ring {
  newtype byte = x: int | 0 <= x < 256

  const BUF_LEN: nat := 2048

  /** The slot k places after `i`. */
  function Slot(i: nat, k: nat): (slot: nat)
    ensures slot < BUF_LEN
  {
    (i + k) % BUF_LEN
  }

  /** The number of bytes between the consumer's index and the producer's. */
  function Used(out: nat, inn: nat): nat
    requires out < BUF_LEN && inn < BUF_LEN
  {
    if out <= inn then inn - out else inn + BUF_LEN - out
  }

  /** The bytes waiting in the ring, oldest first. */
  function Live(buf: seq<byte>, out: nat, inn: nat): (live: seq<byte>)
    requires |buf| == BUF_LEN && out < BUF_LEN && inn < BUF_LEN
    ensures |live| == Used(out, inn)
    ensures forall k :: 0 <= k < |live| ==> live[k] == buf[Slot(out, k)]
  {
    seq(Used(out, inn), k requires 0 <= k => buf[Slot(out, k)])
  }

  /** Slot k holds no waiting byte. */
  predicate Free(out: nat, inn: nat, k: nat) {
    if out <= inn then k < out || inn <= k else inn <= k < out
  }

  /** A write to a free slot is invisible to the consumer. */
  lemma WriteFree(buf: seq<byte>, out: nat, inn: nat, k: nat, b: byte)
    requires |buf| == BUF_LEN && out < BUF_LEN && inn < BUF_LEN && k < BUF_LEN
    requires Free(out, inn, k)
    ensures Live(buf[k := b], out, inn) == Live(buf, out, inn)
  {
  }

  /** Publishing n bytes already stored after the producer's index. */
  lemma PublishChunk(buf: seq<byte>, out: nat, inn: nat, n: nat)
    requires |buf| == BUF_LEN && out < BUF_LEN && inn < BUF_LEN
    requires inn + n <= BUF_LEN && Used(out, inn) + n < BUF_LEN
    ensures Live(buf, out, Slot(inn, n)) == Live(buf, out, inn) + buf[inn..inn + n]
  {
  }

  /** Producing one byte into a ring that is not full. */
  lemma PushOne(buf: seq<byte>, out: nat, inn: nat, b: byte)
    requires |buf| == BUF_LEN && out < BUF_LEN && inn < BUF_LEN
    requires Slot(inn, 1) != out
    ensures Live(buf[inn := b], out, Slot(inn, 1)) == Live(buf, out, inn) + [b]
  {
  }

  /** Releasing n bytes that lie contiguously at the consumer's index. */
  lemma ReleaseChunk(buf: seq<byte>, out: nat, inn: nat, n: nat)
    requires |buf| == BUF_LEN && out < BUF_LEN && inn < BUF_LEN
    requires out + n <= BUF_LEN && n <= Used(out, inn)
    ensures Live(buf, out, inn)[..n] == buf[out..out + n]
    ensures Live(buf, Slot(out, n), inn) == Live(buf, out, inn)[n..]
  {
  }

  /** Consuming one byte. */
  lemma PopOne(buf: seq<byte>, out: nat, inn: nat)
    requires |buf| == BUF_LEN && out < BUF_LEN && inn < BUF_LEN && out != inn
    ensures Live(buf, out, inn) == [buf[out]] + Live(buf, Slot(out, 1), inn)
  {
  }
}
