/** What the encoder writes, the parser reads. */
module CborRoundTrip {
  import opened Bytes
  import opened Wrappers
  import CborTree
  import CborCursor
  import Enc = CborEncoder
  import Dec = CborParser

  lemma WrittenReadsBack(t: CborTree.Item, s: seq<byte>)
    requires CborTree.Encodable(t) && CborTree.Depth(t) <= Dec.MAX_RECURSIONS && CborTree.Encode(t) <= s
    ensures CborTree.ParseItem(s, 0, Dec.MAX_RECURSIONS) == Some((t, |CborTree.Encode(t)|))
  {
    hide CborTree.Encode, CborTree.ParseItem;
    assert CborTree.Stands(s, 0, CborTree.Encode(t));
    CborTree.ItemReadsBack(t, s, 0, Dec.MAX_RECURSIONS);
  }

  /** Counts with no buffer, writes into a buffer of the size counted, and reads the tree back. */
  method WriteAndRead(t: CborTree.Item) returns (item: CborTree.Item, size: nat, position: nat)
    requires Enc.Writable(t) && CborTree.Encodable(t)
    requires CborTree.Depth(t) <= Dec.MAX_RECURSIONS && |CborTree.Encode(t)| < CborCursor.UINT32_MAX
    ensures item == t && position == size == |CborTree.Encode(t)|
  {
    hide CborTree.Encode, CborTree.ParseItem, CborTree.Encodable, Enc.Writable;
    var empty := new byte[0];
    var oom, misuse, used, needed := Enc.EncodeTree(t, empty);
    var buffer := new byte[needed];
    oom, misuse, used, needed := Enc.EncodeTree(t, buffer);
    size := buffer.Length;
    WrittenReadsBack(t, buffer[..]);
    var err;
    err, item, position := Dec.ReadTree(buffer[..]);
  }
}
