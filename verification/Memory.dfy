/** The C heap as cJSON uses it: blocks handed out by an allocator that may fail at any call,
    and freed one by one. Reading, writing or freeing a block that is not allocated is a
    precondition violation, so use after free and double free are excluded by verification. */
module Memory {
  import opened Bytes

  type Ptr = nat
  const NULL: Ptr := 0

  datatype Kind =
    | InvalidKind | FalseKind | TrueKind | NullKind | NumberKind | StringKind | ArrayKind | ObjectKind

  datatype Block =
    /** struct cJSON: links, child list, type, valuestring, valueint, valuedouble, string. */
    | Node(next: Ptr, prev: Ptr, child: Ptr, kind: Kind, text: Ptr, valueint: int, valuedouble: real, key: Ptr)
    /** Allocated characters that have not been written yet. */
    | Space(size: nat)
    /** A C string, with its terminator. */
    | Str(s: CStr)

  type Heap = map<Ptr, Block>

  /** What cJSON_New_Item leaves after memset. */
  const ZEROED: Block := Node(NULL, NULL, NULL, InvalidKind, NULL, 0, 0.0, NULL)

  lemma AboveAll(s: set<Ptr>) returns (p: Ptr)
    ensures p != NULL && forall q :: q in s ==> q < p
  {
    p := 1;
    if s != {} {
      var x :| x in s;
      p := AboveAll(s - {x});
      assert forall q :: q in s ==> q == x || q in s - {x};
      p := if p <= x then x + 1 else p;
    }
  }

  class Memory {
    var blocks: Heap
    /** Set once an allocation has failed. */
    var oom: bool

    ghost predicate Valid()
      reads this
    {
      NULL !in blocks
    }

    constructor ()
      ensures Valid() && blocks == map[] && !oom
    {
      blocks := map[];
      oom := false;
    }

    /** hooks->allocate: NULL, or a block nobody holds. */
    method Allocate(b: Block) returns (p: Ptr)
      requires Valid()
      modifies this
      ensures Valid()
      ensures p == NULL ==> oom && blocks == old(blocks)
      ensures p != NULL ==> p !in old(blocks) && blocks == old(blocks)[p := b] && oom == old(oom)
    {
      if * {
        oom := true;
        return NULL;
      }
      ghost var above := AboveAll(blocks.Keys);
      assert above !in blocks;
      p :| p != NULL && p !in blocks;
      blocks := blocks[p := b];
    }

    /** hooks->reallocate: NULL with the block as it was, or a block of the new size, the same or
        another, in place of the old one. */
    method Reallocate(p: Ptr, size: nat) returns (q: Ptr)
      requires Valid() && p in blocks
      modifies this
      ensures Valid()
      ensures q == NULL ==> oom && blocks == old(blocks)
      ensures q != NULL ==> (q == p || q !in old(blocks)) && oom == old(oom)
                            && blocks == (old(blocks) - {p})[q := Space(size)]
    {
      if * {
        blocks := blocks[p := Space(size)];
        assert blocks == (old(blocks) - {p})[p := Space(size)];
        return p;
      }
      q := Allocate(Space(size));
      if q != NULL {
        Free(p);
        assert blocks == (old(blocks) - {p})[q := Space(size)];
      }
    }

    method NewItem() returns (p: Ptr)
      requires Valid()
      modifies this
      ensures Valid()
      ensures p == NULL ==> oom && blocks == old(blocks)
      ensures p != NULL ==> p !in old(blocks) && blocks == old(blocks)[p := ZEROED] && oom == old(oom)
    {
      p := Allocate(ZEROED);
    }

    /** Writes a byte run and its terminator into fresh space; C readers see it up to its first NUL. */
    method Fill(p: Ptr, written: seq<byte>)
      requires Valid() && p in blocks && blocks[p].Space? && |written| + 1 <= blocks[p].size
      modifies this
      ensures Valid() && oom == old(oom)
      ensures blocks == old(blocks)[p := Str(Visible(written))]
    {
      blocks := blocks[p := Str(Visible(written))];
    }

    /** cJSON_strdup */
    method Strdup(s: Ptr) returns (p: Ptr)
      requires Valid() && (s != NULL ==> s in blocks && blocks[s].Str?)
      modifies this
      ensures Valid()
      ensures p == NULL ==> blocks == old(blocks) && (s != NULL ==> oom) && (s == NULL ==> oom == old(oom))
      ensures p != NULL ==> s != NULL && p !in old(blocks) && oom == old(oom)
                            && blocks == old(blocks)[p := old(blocks[s])]
    {
      if s == NULL {
        return NULL;
      }
      var bytes := blocks[s].s;
      p := Allocate(Space(|bytes| + 1));
      if p != NULL {
        VisibleOfCStr(bytes);
        Fill(p, bytes);
        assert blocks == old(blocks)[p := Str(bytes)];
      }
    }

    method Free(p: Ptr)
      requires Valid() && p in blocks
      modifies this
      ensures Valid() && oom == old(oom)
      ensures blocks == old(blocks) - {p}
    {
      blocks := blocks - {p};
    }

    method SetNode(p: Ptr, b: Block)
      requires Valid() && p in blocks && blocks[p].Node? && b.Node?
      modifies this
      ensures Valid() && oom == old(oom)
      ensures blocks == old(blocks)[p := b]
    {
      blocks := blocks[p := b];
    }
  }
}
