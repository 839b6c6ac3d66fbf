/** What the leaves of a tree hold when they are written with 16-bit key lengths. */
module WrittenLeaves {
  import opened MachineTypes
  import opened DiskFormat
  import opened BuiltNodes
  import opened TreeModel
  import opened TreeRecords
  import opened BTree

  /** Node n is a leaf written with these records. */
  ghost predicate LeafWritten<K(!new)>(v: Volume<K>, n: nat, items: seq<Item>) {
    && NodeFits(Written(items, true), v.header.nodeSize) && AllFit(items, true, true, v.header.maxKeyLength)
    && exists height: u8, fLink: u32, bLink: u32 ::
         v.RawNode(n) == Built(v.header, true, height, fLink, bLink, items, true)
  }

  /** These leaves are written with these records, in a tree with 16-bit key lengths. */
  ghost predicate LeavesWritten<K(!new)>(v: Volume<K>, leaves: seq<nat>, contents: seq<seq<Item>>) {
    && (HasAttributes(v.header.attributes, true, false) || HasAttributes(v.header.attributes, true, true))
    && |leaves| == |contents| && forall p :: 0 <= p < |leaves| ==> WrittenAt(v, leaves, contents, p)
  }

  ghost predicate WrittenAt<K(!new)>(v: Volume<K>, leaves: seq<nat>, contents: seq<seq<Item>>, p: nat)
    requires p < |leaves| == |contents|
  {
    LeafWritten(v, leaves[p], contents[p])
  }

  lemma LeavesBehind<K(!new)>(v: Volume<K>, leaves: seq<nat>, contents: seq<seq<Item>>)
    requires LeavesWritten(v, leaves, contents) && leaves != []
    ensures LeafWritten(v, leaves[0], contents[0]) && LeavesWritten(v, leaves[1..], contents[1..])
  {
    assert WrittenAt(v, leaves, contents, 0);
    forall p | 0 <= p < |leaves| - 1 ensures WrittenAt(v, leaves[1..], contents[1..], p) {
      assert WrittenAt(v, leaves, contents, p + 1);
    }
  }

  function KeysOf<K>(keyOf: seq<u8> -> K, items: seq<Item>): (keys: seq<K>)
    ensures |keys| == |items|
  {
    seq(|items|, i requires 0 <= i < |items| => keyOf(Body(items[i], true)))
  }

  function DataOf(items: seq<Item>): (data: seq<seq<u8>>)
    ensures |data| == |items|
  {
    seq(|items|, i requires 0 <= i < |items| => items[i].data)
  }

  /** Such a leaf, if it can be read, says what was written. */
  lemma LeafReads<K(!new)>(v: Volume<K>, n: nat, items: seq<Item>)
    requires v.Readable(n) && LeafWritten(v, n, items)
    requires HasAttributes(v.header.attributes, true, false) || HasAttributes(v.header.attributes, true, true)
    ensures v.NodeAt(n).leaf && v.NodeAt(n).keys == KeysOf(v.keyOf, items) && v.NodeAt(n).values == DataOf(items)
  {
    var height: u8, fLink: u32, bLink: u32 :| v.RawNode(n) == Built(v.header, true, height, fLink, bLink, items, true);
    var variable := !HasAttributes(v.header.attributes, true, false);
    DecodeBuilt(v, true, height, fLink, bLink, items, true, variable, []);
  }

  function Flatten<T>(parts: seq<seq<T>>): seq<T> {
    if parts == [] then [] else parts[0] + Flatten(parts[1..])
  }

  /** All records of such leaves, in order. */
  lemma {:induction false} LeavesRead<K(!new)>(v: Volume<K>, leaves: seq<nat>, contents: seq<seq<Item>>)
    requires LeavesWritten(v, leaves, contents) && forall p :: 0 <= p < |leaves| ==> v.Readable(leaves[p])
    ensures Keys(v.Nodes(), leaves) == KeysOf(v.keyOf, Flatten(contents))
    ensures Values(v.Nodes(), leaves) == DataOf(Flatten(contents))
    decreases |leaves|
  {
    if leaves != [] {
      LeavesBehind(v, leaves, contents);
      LeafReads(v, leaves[0], contents[0]);
      LeavesRead(v, leaves[1..], contents[1..]);
      AppendKeys(v.keyOf, contents[0], Flatten(contents[1..]));
    }
  }

  lemma AppendKeys<K>(keyOf: seq<u8> -> K, a: seq<Item>, b: seq<Item>)
    ensures KeysOf(keyOf, a + b) == KeysOf(keyOf, a) + KeysOf(keyOf, b) && DataOf(a + b) == DataOf(a) + DataOf(b)
  {}
}
