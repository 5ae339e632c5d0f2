/** The objects the extent code works on: the tree blocks of a volume and an inode. */
module Volumes {
  import opened ExtentNodes

  /** The tree blocks of a volume; `cap` is the number of entries that fit in one block. */
  class Volume {
    const cap: nat
    var disk: Disk

    constructor (cap: nat)
      ensures this.cap == cap && disk == map[]
    {
      this.cap := cap;
      disk := map[];
    }
  }

  /** An inode with its extent root (i_data), the depth of its tree, and its block count. */
  class Inode {
    var root: Node
    var depth: nat
    var blocks: int

    /** A new file: ext4_ext_tree_init gives it an empty depth-0 root. */
    constructor ()
      ensures root == Leaf([], ROOT_CAP) && depth == 0 && blocks == 0
    {
      root := Leaf([], ROOT_CAP);
      depth := 0;
      blocks := 0;
    }
  }
}
