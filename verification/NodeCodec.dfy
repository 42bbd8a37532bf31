/** Object headers, B-tree nodes and tree information as the reader decodes them (`obj.rs`, `btree.rs`). */
module NodeCodec {
  import opened Bytes
  import BTree

  const OBJ_HDR_SIZE := 32
  const BTNODE_HDR_SIZE := 56
  const BTREE_INFO_SIZE := 40
  const BTOFF_INVALID := 0xFFFF

  const OBJECT_TYPE_NX_SUPERBLOCK := 1
  const OBJECT_TYPE_BTREE := 2
  const OBJECT_TYPE_BTREE_NODE := 3
  const OBJECT_TYPE_SPACEMAN := 5
  const OBJECT_TYPE_OMAP := 11

  datatype ObjHeader = ObjHeader(oid: nat, xid: nat, objType: nat)

  function ParseObjHeader(block: Bytes): Result<ObjHeader> {
    if |block| < OBJ_HDR_SIZE then Err(Parse)
    else Ok(ObjHeader(Field(block, 8, 8), Field(block, 16, 8), Field(block, 24, 4)))
  }

  function BaseType(h: ObjHeader): nat {
    h.objType % 0x1_0000
  }

  /** `Node` with its header: a checked view of one block. */
  datatype NodeBlock = NodeBlock(flags: nat, nkeys: nat, tableOff: nat, tableLen: nat, block: Bytes) {
    predicate Root() {
      flags % 2 == 1
    }

    predicate IsLeaf() {
      flags / 2 % 2 == 1
    }

    predicate FixedKv() {
      flags / 4 % 2 == 1
    }

    function TocStart(): nat {
      BTNODE_HDR_SIZE + tableOff
    }

    function KeyArea(): nat {
      BTNODE_HDR_SIZE + tableOff + tableLen
    }

    function ValAreaEnd(): nat {
      if Root() then (if |block| < BTREE_INFO_SIZE then 0 else |block| - BTREE_INFO_SIZE) else |block|
    }

    function Slice(start: nat, len: nat): Result<Bytes> {
      if start + len > |block| then Err(Corrupt) else Ok(block[start..start + len])
    }

    function TocEntry(i: nat): Result<TocFields> {
      if i >= nkeys then Err(Corrupt)
      else if FixedKv() then
        var k :- ReadLE(block, TocStart() + i * 4, 2);
        var v :- ReadLE(block, TocStart() + i * 4 + 2, 2);
        Ok(TocFields(k, None, v, None))
      else
        var k :- ReadLE(block, TocStart() + i * 8, 2);
        var klen :- ReadLE(block, TocStart() + i * 8 + 2, 2);
        var v :- ReadLE(block, TocStart() + i * 8 + 4, 2);
        var vlen :- ReadLE(block, TocStart() + i * 8 + 6, 2);
        Ok(TocFields(k, Some(klen), v, Some(vlen)))
    }

    function Key(i: nat, fixedKeySize: nat): Result<Bytes> {
      var e :- TocEntry(i);
      Slice(KeyArea() + e.keyOff, if e.keyLen.Some? then e.keyLen.value else fixedKeySize)
    }

    /** `None` is a ghost record. */
    function Value(i: nat, fixedValSize: nat, nonleafValSize: nat): Result<Option<Bytes>> {
      var e :- TocEntry(i);
      if e.valOff == BTOFF_INVALID then Ok(None)
      else
        var len := match e.valLen
          case Some(l) => l
          case None => if IsLeaf() then fixedValSize else nonleafValSize;
        if ValAreaEnd() < e.valOff then Err(Corrupt)
        else
          var s :- Slice(ValAreaEnd() - e.valOff, len);
          Ok(Some(s))
    }
  }

  datatype TocFields = TocFields(keyOff: nat, keyLen: Option<nat>, valOff: nat, valLen: Option<nat>)

  function ParseNode(block: Bytes): Result<NodeBlock> {
    var obj :- ParseObjHeader(block);
    if BaseType(obj) != OBJECT_TYPE_BTREE_NODE && BaseType(obj) != OBJECT_TYPE_BTREE then Err(Parse)
    else if |block| < OBJ_HDR_SIZE + 16 then Err(Parse)
    else if Field(block, 36, 4) > 4096 then Err(Corrupt)
    else Ok(NodeBlock(Field(block, 32, 2), Field(block, 36, 4), Field(block, 40, 2), Field(block, 42, 2), block))
  }

  /** `btree_info_t`, the fields the reader uses. */
  datatype TreeInfo = TreeInfo(keySize: nat, valSize: nat, keyCount: nat)

  function ParseTreeInfo(root: NodeBlock): Result<TreeInfo> {
    if !root.Root() || |root.block| < BTREE_INFO_SIZE then Err(Corrupt)
    else
      var off := |root.block| - BTREE_INFO_SIZE;
      Ok(TreeInfo(Field(root.block, off + 8, 4), Field(root.block, off + 12, 4), Field(root.block, off + 24, 8)))
  }

  /** A node as the traversals see it: what each accessor call returns. */
  function Present(nb: NodeBlock, keySize: nat, valSize: nat): BTree.Node {
    BTree.NodeView(nb.IsLeaf(),
                   seq(nb.nkeys, i requires i >= 0 => nb.Key(i, keySize)),
                   seq(nb.nkeys, i requires i >= 0 => nb.Value(i, valSize, 8)),
                   nb.block)
  }
}
