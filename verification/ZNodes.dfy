// The tuples of a sorted set: inc/server/zset.h and inc/server/avl.h.

module ZNodes {
  import opened Basics

  // A tuple of the sorted set.  The tree links (AVLNode) are fields of the
  // tuple itself, so container_of is the identity here.
  class ZNode {
    var parent: ZNode?
    var left: ZNode?
    var right: ZNode?
    var height: nat
    var cnt: nat
    var score: real
    const name: Bytes

    constructor (name: Bytes, score: real)
      ensures this.name == name && this.score == score
      ensures parent == null && left == null && right == null && height == 1 && cnt == 1
    {
      this.name := name;
      this.score := score;
      parent, left, right := null, null, null;
      height, cnt := 1, 1;
    }
  }
}
