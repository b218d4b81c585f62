/** The encoder appending to a shared vector and the decoder's loops, against their specifications. */
module BencodeCodec {
  import opened Bytes
  import opened Decimal
  import opened Bencode
  import opened BencodeKeys

  // ----- Encoding into a byte vector

  /** A stable sort by key. */
  function SortByKey(es: seq<Entry>): seq<Entry> {
    if es == [] then [] else SortIn(SortByKey(es[..|es| - 1]), es[|es| - 1])
  }

  function SortIn(es: seq<Entry>, e: Entry): seq<Entry> {
    if es == [] || !KeyLess(e.key, es[|es| - 1].key) then es + [e]
    else SortIn(es[..|es| - 1], e) + [es[|es| - 1]]
  }

  /** The list of an ordered map is sorted already, so sorting it changes nothing. */
  lemma {:induction false} SortedIsFixed(es: seq<Entry>)
    requires SortedKeys(KeysOf(es))
    ensures SortByKey(es) == es
  {
    hide KeyLess, KeysOf, SortIn;
    if es != [] {
      var n := |es| - 1;
      LastIsAbove(es);
      SortedIsFixed(es[..n]);
      SortInLast(es[..n], es[n]);
      assert es == es[..n] + [es[n]];
    }
  }

  lemma LastIsAbove(es: seq<Entry>)
    requires es != [] && SortedKeys(KeysOf(es))
    ensures SortedKeys(KeysOf(es[..|es| - 1]))
    ensures |es| > 1 ==> !KeyLess(es[|es| - 1].key, es[|es| - 2].key)
  {
    hide KeyLess;
    var n, keys := |es| - 1, KeysOf(es);
    assert KeysOf(es[..n]) == keys[..n];
    if n > 0 {
      assert KeyLess(keys[n - 1], keys[n]);
      KeyLessAsymmetric(keys[n - 1], keys[n]);
    }
  }

  lemma SortInLast(es: seq<Entry>, e: Entry)
    requires es == [] || !KeyLess(e.key, es[|es| - 1].key)
    ensures SortIn(es, e) == es + [e]
  {}

  method EncodeTo(v: Bencode, out: ByteVec)
    requires WellFormed(v)
    modifies out
    ensures out.bytes == old(out.bytes) + Encode(v)
    decreases v, 0
  {
    match v
    case Int(n) => EncodeIntTo(n, out);
    case Bytes(b) => EncodeBytesTo(b, out);
    case List(items) => EncodeListTo(items, out);
    case Dict(es) => EncodeDictTo(es, out);
  }

  method EncodeIntTo(n: int, out: ByteVec)
    modifies out
    ensures out.bytes == old(out.bytes) + Encode(Int(n))
  {
    out.Push(INT_START);
    out.Extend(ToText(n));
    out.Push(BEN_END);
  }

  method EncodeBytesTo(b: seq<Byte>, out: ByteVec)
    modifies out
    ensures out.bytes == old(out.bytes) + EncodeBytes(b)
  {
    out.Extend(Digits(|b|));
    out.Push(BYTE_LEN_END);
    out.Extend(b);
  }

  lemma ItemsFrom(items: seq<Bencode>, i: nat)
    requires i < |items|
    ensures EncodeItems(items[i..]) == Encode(items[i]) + EncodeItems(items[i + 1..])
  {
    hide Encode;
    assert items[i..][0] == items[i] && items[i..][1..] == items[i + 1..];
  }

  method EncodeListTo(items: seq<Bencode>, out: ByteVec)
    requires forall i :: 0 <= i < |items| ==> WellFormed(items[i])
    modifies out
    ensures out.bytes == old(out.bytes) + Encode(List(items))
    decreases items, 1
  {
    hide WellFormed, EncodeItems;
    out.Push(LIST_START);
    ghost var done: seq<Byte> := [];
    for i := 0 to |items|
      invariant out.bytes == old(out.bytes) + [LIST_START] + done
      invariant done + EncodeItems(items[i..]) == EncodeItems(items)
    {
      EncodeTo(items[i], out);
      ItemsFrom(items, i);
      done := done + Encode(items[i]);
    }
    NothingLeft();
    out.Push(BEN_END);
    assert items[|items|..] == [] && done == EncodeItems(items);
  }

  lemma NothingLeft()
    ensures EncodeItems([]) == [] && EncodeEntries([]) == []
  {}

  lemma EntriesFrom(es: seq<Entry>, i: nat)
    requires i < |es|
    ensures EncodeEntries(es[i..]) == EncodeBytes(es[i].key) + Encode(es[i].val) + EncodeEntries(es[i + 1..])
  {
    hide Encode, EncodeBytes;
    assert es[i..][0] == es[i] && es[i..][1..] == es[i + 1..];
  }

  lemma DictEncoding(es: seq<Entry>)
    ensures Encode(Dict(es)) == [DICT_START] + EncodeEntries(es) + [BEN_END]
  {}

  method EncodeEntryTo(e: Entry, out: ByteVec)
    requires WellFormed(e.val)
    modifies out
    ensures out.bytes == old(out.bytes) + (EncodeBytes(e.key) + Encode(e.val))
    decreases e, 1
  {
    hide Encode, EncodeBytes;
    EncodeBytesTo(e.key, out);
    EncodeTo(e.val, out);
  }

  method EncodeDictTo(es: seq<Entry>, out: ByteVec)
    requires WellFormed(Dict(es))
    modifies out
    ensures out.bytes == old(out.bytes) + Encode(Dict(es))
    decreases es, 2
  {
    hide Encode, EncodeEntries, EncodeBytes, KeysOf, SortedKeys, SortByKey;
    var sorted := SortByKey(es);
    SortedIsFixed(es);
    out.Push(DICT_START);
    ghost var done: seq<Byte> := [];
    for i := 0 to |sorted|
      invariant sorted == es
      invariant out.bytes == old(out.bytes) + [DICT_START] + done
      invariant done + EncodeEntries(es[i..]) == EncodeEntries(es)
    {
      EncodeEntryTo(sorted[i], out);
      EntriesFrom(es, i);
      done := done + (EncodeBytes(es[i].key) + Encode(es[i].val));
    }
    NothingLeft();
    out.Push(BEN_END);
    assert es[|es|..] == [] && done == EncodeEntries(es);
    DictEncoding(es);
  }

  // ----- Decoding

  method PeekByte(bytes: seq<Byte>, pos: nat) returns (r: ParseResult<Byte>)
    ensures r == if pos < |bytes| then Ok(bytes[pos]) else Err(BytesEmpty(pos))
  {
    r := if pos < |bytes| then Ok(bytes[pos]) else Err(BytesEmpty(pos));
  }

  method DecodeValue(bytes: seq<Byte>, pos: nat, opts: DecodeOpt, depth: nat) returns (r: ParseResult<(BencodeRef, nat)>)
    requires pos <= |bytes|
    ensures r == Decode(bytes, pos, opts, depth)
    decreases |bytes| - pos, 0
  {
    hide DecodeInt, DecodeBytes, DecodeItems, DecodeEntries;
    if depth >= opts.maxRecursion {
      return Err(InvalidRecursionExceeded(pos, depth));
    }
    var currByte :- PeekByte(bytes, pos);
    if currByte == INT_START {
      var nAndEnd :- DecodeInt(bytes, pos + 1, BEN_END);
      var (n, next) := nAndEnd;
      r := Ok((IntRef(n, bytes[pos..next]), next));
    } else if currByte == LIST_START {
      var itemsAndEnd :- DecodeList(bytes, pos + 1, opts, depth);
      var (items, next) := itemsAndEnd;
      r := Ok((ListRef(items, bytes[pos..next]), next));
    } else if currByte == DICT_START {
      var esAndEnd :- DecodeDict(bytes, pos + 1, opts, depth);
      var (es, next) := esAndEnd;
      r := Ok((DictRef(es, bytes[pos..next]), next));
    } else if IsDigit(currByte) {
      var bAndEnd :- DecodeBytes(bytes, pos);
      var (b, next) := bAndEnd;
      r := Ok((BytesRef(b, bytes[pos..next]), next));
    } else {
      r := Err(InvalidByte(pos));
    }
  }

  method DecodeList(bytes: seq<Byte>, pos: nat, opts: DecodeOpt, depth: nat) returns (r: ParseResult<(seq<BencodeRef>, nat)>)
    requires pos <= |bytes|
    ensures r == DecodeItems(bytes, pos, opts, depth, [])
    decreases |bytes| - pos, 1
  {
    hide Decode;
    var list: seq<BencodeRef> := [];
    var currPos := pos;
    var currByte :- PeekByte(bytes, currPos);
    while currByte != BEN_END
      invariant pos <= currPos < |bytes| && currByte == bytes[currPos]
      invariant DecodeItems(bytes, pos, opts, depth, []) == DecodeItems(bytes, currPos, opts, depth, list)
      decreases |bytes| - currPos
    {
      var itemAndEnd :- DecodeValue(bytes, currPos, opts, depth + 1);
      var (item, nextPos) := itemAndEnd;
      list := list + [item];
      currPos := nextPos;
      currByte :- PeekByte(bytes, currPos);
    }
    return Ok((list, currPos + 1));
  }

  method DecodeDict(bytes: seq<Byte>, pos: nat, opts: DecodeOpt, depth: nat) returns (r: ParseResult<(seq<EntryRef>, nat)>)
    requires pos <= |bytes|
    ensures r == DecodeEntries(bytes, pos, opts, depth, [])
    decreases |bytes| - pos, 1
  {
    hide Decode, DecodeBytes, Insert;
    var dict: seq<EntryRef> := [];
    var currPos := pos;
    var currByte :- PeekByte(bytes, currPos);
    while currByte != BEN_END
      invariant pos <= currPos < |bytes| && currByte == bytes[currPos]
      invariant DecodeEntries(bytes, pos, opts, depth, []) == DecodeEntries(bytes, currPos, opts, depth, dict)
      decreases |bytes| - currPos
    {
      var keyAndEnd :- DecodeBytes(bytes, currPos);
      var (key, start) := keyAndEnd;
      if opts.checkKeySort && OutOfOrder(dict, key) {
        return Err(InvalidKeyOrdering(currPos, key));
      }
      currPos := start;
      var valAndEnd :- DecodeValue(bytes, currPos, opts, depth + 1);
      var (val, nextPos) := valAndEnd;
      if key in RefKeys(dict) {
        return Err(InvalidKeyDuplicates(currPos, key));
      }
      dict := Insert(dict, EntryRef(key, val));
      currPos := nextPos;
      currByte :- PeekByte(bytes, currPos);
    }
    return Ok((dict, currPos + 1));
  }
}
