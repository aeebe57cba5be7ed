// The keys of the store: struct Entry of inc/server/key_value.h.

module Entries {
  import opened Basics
  import opened ZSets

  datatype Payload = Text(s: Bytes) | Scored(zset: ZSet)

  // A key of the store; heapIdx is the index of its heap item, or -1.
  class Entry {
    const key: Bytes
    var heapIdx: int
    var value: Payload

    constructor (key: Bytes, value: Payload)
      ensures this.key == key && this.value == value && heapIdx == -1
    {
      this.key, this.value, heapIdx := key, value, -1;
    }
  }
}
