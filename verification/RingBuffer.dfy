/** What the two queues of src/queue.c share: a buffer in memory that is used as a ring. */
module RingBuffer {
  /** sizeof(fifo_item_t), packed: the smallest buffer that either queue accepts. */
  const MIN_BUFFER: nat := 17

  datatype Ring = Ring(start: nat, size: nat) {
    function End(): nat { start + size }
  }
}
