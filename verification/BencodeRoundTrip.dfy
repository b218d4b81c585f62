/** Decoding what was encoded gives the value back, exactly when the recursion limit allows its depth. */
module BencodeRoundTrip {
  import opened Bytes
  import opened Decimal
  import opened Bencode
  import opened BencodeKeys

  function Max(a: nat, b: nat): nat {
    if a > b then a else b
  }

  /** Nesting depth: 1 for a scalar or an empty container. */
  function Depth(v: Bencode): (d: nat)
    ensures d > 0
    decreases v, 0
  {
    match v
    case Int(_) => 1
    case Bytes(_) => 1
    case List(items) => 1 + ItemsDepth(items)
    case Dict(es) => 1 + EntriesDepth(es)
  }

  function ItemsDepth(items: seq<Bencode>): nat
    decreases items, 1
  {
    if items == [] then 0 else Max(Depth(items[0]), ItemsDepth(items[1..]))
  }

  function EntriesDepth(es: seq<Entry>): nat
    decreases es, 1
  {
    if es == [] then 0 else Max(Depth(es[0].val), EntriesDepth(es[1..]))
  }

  /** A value with every part spanning its own encoding. */
  function Spanned(v: Bencode): BencodeRef
    decreases v, 0
  {
    match v
    case Int(n) => IntRef(n, Encode(v))
    case Bytes(b) => BytesRef(b, Encode(v))
    case List(items) => ListRef(SpannedItems(items), Encode(v))
    case Dict(es) => DictRef(SpannedEntries(es), Encode(v))
  }

  function SpannedItems(items: seq<Bencode>): (r: seq<BencodeRef>)
    ensures |r| == |items|
    decreases items, 1
  {
    if items == [] then [] else [Spanned(items[0])] + SpannedItems(items[1..])
  }

  function SpannedEntries(es: seq<Entry>): (r: seq<EntryRef>)
    ensures |r| == |es| && forall i :: 0 <= i < |es| ==> r[i].key == es[i].key
    decreases es, 1
  {
    if es == [] then [] else [EntryRef(es[0].key, Spanned(es[0].val))] + SpannedEntries(es[1..])
  }

  lemma {:induction false} PlainSpanned(v: Bencode)
    ensures Plain(Spanned(v)) == v
    decreases v, 0
  {
    match v
    case Int(_) =>
    case Bytes(_) =>
    case List(items) => PlainSpannedItems(items);
    case Dict(es) => PlainSpannedEntries(es);
  }

  lemma {:induction false} PlainSpannedItems(items: seq<Bencode>)
    ensures PlainItems(SpannedItems(items)) == items
    decreases items, 1
  {
    if items != [] {
      PlainSpanned(items[0]);
      PlainSpannedItems(items[1..]);
      assert PlainItems(SpannedItems(items)) == [items[0]] + PlainItems(SpannedItems(items[1..]));
    }
  }

  lemma {:induction false} PlainSpannedEntries(es: seq<Entry>)
    ensures PlainEntries(SpannedEntries(es)) == es
    decreases es, 1
  {
    hide Spanned, Plain;
    if es != [] {
      var rest := SpannedEntries(es[1..]);
      PlainSpanned(es[0].val);
      PlainSpannedEntries(es[1..]);
      assert PlainEntries([EntryRef(es[0].key, Spanned(es[0].val))] + rest) == [es[0]] + PlainEntries(rest);
    }
  }

  lemma {:induction false} DelimFound(bytes: seq<Byte>, pos: nat, s: seq<Byte>, delim: Byte, i: nat)
    requires Reads(bytes, pos, s + [delim]) && i <= |s| && forall j :: 0 <= j < |s| ==> s[j] != delim
    ensures FindDelim(bytes, pos + i, delim) == pos + |s|
    decreases |s| - i
  {
    ReadsAt(bytes, pos, s + [delim], i);
    if i < |s| {
      DelimFound(bytes, pos, s, delim, i + 1);
    }
  }

  lemma DecodeText(n: int, bytes: seq<Byte>, pos: nat, delim: Byte)
    requires I64_MIN <= n <= I64_MAX && !IsDigit(delim) && delim != MINUS
    requires Reads(bytes, pos, ToText(n) + [delim])
    ensures DecodeInt(bytes, pos, delim) == Ok((n, pos + |ToText(n)| + 1))
  {
    hide ToText, FindDelim, ParseI64;
    var s := ToText(n);
    DelimFound(bytes, pos, s, delim, 0);
    ReadsConcat(bytes, pos, s, [delim]);
    ParseOfText(n);
    assert CheckInt(s, pos) == Ok(n);
  }

  lemma DecodeEncodedBytes(b: seq<Byte>, bytes: seq<Byte>, pos: nat)
    requires |b| <= I64_MAX && Reads(bytes, pos, EncodeBytes(b))
    ensures DecodeBytes(bytes, pos) == Ok((b, pos + |EncodeBytes(b)|))
  {
    hide Digits, DecodeInt;
    ReadsConcat(bytes, pos, Digits(|b|) + [BYTE_LEN_END], b);
    assert ToText(|b|) == Digits(|b|);
    DecodeText(|b|, bytes, pos, BYTE_LEN_END);
  }

  /** What decoding an encoding at some depth must give. */
  predicate GivesBack(v: Bencode, bytes: seq<Byte>, pos: nat, opts: DecodeOpt, depth: nat)
    requires pos <= |bytes|
  {
    var r := Decode(bytes, pos, opts, depth);
    if depth + Depth(v) <= opts.maxRecursion then r == Ok((Spanned(v), pos + |Encode(v)|)) else r.Err?
  }

  lemma GivesBackInt(n: int, bytes: seq<Byte>, pos: nat, opts: DecodeOpt, depth: nat)
    requires WellFormed(Int(n)) && Reads(bytes, pos, Encode(Int(n)))
    ensures GivesBack(Int(n), bytes, pos, opts, depth)
  {
    hide ToText, DecodeInt;
    var s := ToText(n) + [BEN_END];
    assert Encode(Int(n)) == [INT_START] + s;
    ReadsConcat(bytes, pos, [INT_START], s);
    ReadsAt(bytes, pos, Encode(Int(n)), 0);
    DecodeText(n, bytes, pos + 1, BEN_END);
  }

  lemma GivesBackBytes(b: seq<Byte>, bytes: seq<Byte>, pos: nat, opts: DecodeOpt, depth: nat)
    requires WellFormed(Bytes(b)) && Reads(bytes, pos, Encode(Bytes(b)))
    ensures GivesBack(Bytes(b), bytes, pos, opts, depth)
  {
    ReadsAt(bytes, pos, EncodeBytes(b), 0);
    DecodeEncodedBytes(b, bytes, pos);
  }

  lemma {:induction false} DecodeEncoded(v: Bencode, bytes: seq<Byte>, pos: nat, opts: DecodeOpt, depth: nat)
    requires WellFormed(v) && Reads(bytes, pos, Encode(v))
    ensures GivesBack(v, bytes, pos, opts, depth)
    decreases v, 0
  {
    hide DecodeInt, DecodeBytes, DecodeItems, DecodeEntries, EncodeItems, EncodeEntries, EncodeBytes, SpannedItems, SpannedEntries, ItemsDepth, EntriesDepth;
    match v
    case Int(n) => GivesBackInt(n, bytes, pos, opts, depth);
    case Bytes(b) => GivesBackBytes(b, bytes, pos, opts, depth);
    case List(items) =>
      if depth < opts.maxRecursion {
        var s := EncodeItems(items) + [BEN_END];
        assert Encode(v) == [LIST_START] + s;
        ReadsConcat(bytes, pos, [LIST_START], s);
        ReadsAt(bytes, pos, Encode(v), 0);
        DecodeEncodedItems(items, bytes, pos + 1, opts, depth, []);
        assert [] + SpannedItems(items) == SpannedItems(items);
      }
    case Dict(es) =>
      if depth < opts.maxRecursion {
        var s := EncodeEntries(es) + [BEN_END];
        assert Encode(v) == [DICT_START] + s;
        ReadsConcat(bytes, pos, [DICT_START], s);
        ReadsAt(bytes, pos, Encode(v), 0);
        assert RefKeys([]) + KeysOf(es) == KeysOf(es);
        DecodeEncodedEntries(es, bytes, pos + 1, opts, depth, []);
        assert [] + SpannedEntries(es) == SpannedEntries(es);
      }
  }

  lemma {:induction false} DecodeEncodedItems(items: seq<Bencode>, bytes: seq<Byte>, pos: nat, opts: DecodeOpt, depth: nat, acc: seq<BencodeRef>)
    requires forall i :: 0 <= i < |items| ==> WellFormed(items[i])
    requires Reads(bytes, pos, EncodeItems(items) + [BEN_END]) && depth < opts.maxRecursion
    ensures var r := DecodeItems(bytes, pos, opts, depth, acc);
            if depth + 1 + ItemsDepth(items) <= opts.maxRecursion
            then r == Ok((acc + SpannedItems(items), pos + |EncodeItems(items)| + 1))
            else r.Err?
    decreases items, 1
  {
    hide Decode, Encode, Spanned, Depth, WellFormed;
    ReadsAt(bytes, pos, EncodeItems(items) + [BEN_END], 0);
    if items == [] {
      assert acc + SpannedItems(items) == acc;
    } else {
      var head, tail := Encode(items[0]), EncodeItems(items[1..]) + [BEN_END];
      assert EncodeItems(items) + [BEN_END] == head + tail;
      ReadsConcat(bytes, pos, head, tail);
      DecodeEncoded(items[0], bytes, pos, opts, depth + 1);
      DecodeEncodedItems(items[1..], bytes, pos + |head|, opts, depth, acc + [Spanned(items[0])]);
      assert acc + SpannedItems(items) == acc + [Spanned(items[0])] + SpannedItems(items[1..]);
    }
  }

  lemma EntriesUnfold(es: seq<Entry>, acc: seq<EntryRef>)
    requires es != []
    ensures |EncodeEntries(es)| == |EncodeBytes(es[0].key)| + |Encode(es[0].val)| + |EncodeEntries(es[1..])|
    ensures EntriesDepth(es) == Max(Depth(es[0].val), EntriesDepth(es[1..]))
    ensures acc + SpannedEntries(es) == acc + [EntryRef(es[0].key, Spanned(es[0].val))] + SpannedEntries(es[1..])
  {
    hide EncodeBytes, Encode, Spanned, Depth;
  }

  lemma EntriesRead(es: seq<Entry>, bytes: seq<Byte>, pos: nat)
    requires es != [] && Reads(bytes, pos, EncodeEntries(es) + [BEN_END])
    ensures var start := pos + |EncodeBytes(es[0].key)|;
            && Reads(bytes, pos, EncodeBytes(es[0].key))
            && Reads(bytes, start, Encode(es[0].val))
            && Reads(bytes, start + |Encode(es[0].val)|, EncodeEntries(es[1..]) + [BEN_END])
            && start + |Encode(es[0].val)| <= |bytes|
  {
    hide EncodeBytes, Encode, EncodeEntries, Reads;
    var head, mid, tail := EncodeBytes(es[0].key), Encode(es[0].val), EncodeEntries(es[1..]) + [BEN_END];
    EntriesSplit(es, head, mid, EncodeEntries(es[1..]));
    ReadsConcat(bytes, pos, head, mid + tail);
    ReadsConcat(bytes, pos + |head|, mid, tail);
    ReadsEnd(bytes, pos + |head|, mid);
  }

  lemma EntriesSplit(es: seq<Entry>, head: seq<Byte>, mid: seq<Byte>, tail: seq<Byte>)
    requires es != [] && head == EncodeBytes(es[0].key) && mid == Encode(es[0].val) && tail == EncodeEntries(es[1..])
    ensures EncodeEntries(es) + [BEN_END] == head + (mid + (tail + [BEN_END]))
  {
    hide EncodeBytes, Encode;
  }

  lemma ReadsEnd(bytes: seq<Byte>, pos: nat, s: seq<Byte>)
    requires Reads(bytes, pos, s)
    ensures pos + |s| <= |bytes|
  {}

  lemma NextEntry(acc: seq<EntryRef>, es: seq<Entry>, e: EntryRef)
    requires es != [] && e.key == es[0].key && SortedKeys(RefKeys(acc) + KeysOf(es))
    ensures e.key !in RefKeys(acc) && !OutOfOrder(acc, e.key)
    ensures Insert(acc, e) == acc + [e]
    ensures SortedKeys(RefKeys(acc + [e]) + KeysOf(es[1..]))
  {
    hide KeyLess;
    NextKey(acc, es);
    InsertLast(acc, e);
    assert RefKeys(acc + [e]) + KeysOf(es[1..]) == RefKeys(acc) + KeysOf(es);
  }

  lemma {:induction false} DecodeEncodedEntries(es: seq<Entry>, bytes: seq<Byte>, pos: nat, opts: DecodeOpt, depth: nat, acc: seq<EntryRef>)
    requires forall i :: 0 <= i < |es| ==> |es[i].key| <= I64_MAX && WellFormed(es[i].val)
    requires SortedKeys(RefKeys(acc) + KeysOf(es))
    requires Reads(bytes, pos, EncodeEntries(es) + [BEN_END]) && depth < opts.maxRecursion
    ensures var r := DecodeEntries(bytes, pos, opts, depth, acc);
            if depth + 1 + EntriesDepth(es) <= opts.maxRecursion
            then r == Ok((acc + SpannedEntries(es), pos + |EncodeEntries(es)| + 1))
            else r.Err?
    decreases es, 1
  {
    hide Reads, Decode, DecodeBytes, Encode, EncodeBytes, Spanned, Depth, WellFormed, SortedKeys, Insert, RefKeys, KeysOf, OutOfOrder;
    ReadsAt(bytes, pos, EncodeEntries(es) + [BEN_END], 0);
    if es == [] {
      assert acc + SpannedEntries(es) == acc;
    } else {
      hide DecodeEntries, EncodeEntries, SpannedEntries, EntriesDepth;
      var key, val, e := es[0].key, es[0].val, EntryRef(es[0].key, Spanned(es[0].val));
      EntriesUnfold(es, acc);
      var start := pos + |EncodeBytes(key)|;
      EntriesRead(es, bytes, pos);
      DecodeEncodedBytes(key, bytes, pos);
      DecodeEncoded(val, bytes, start, opts, depth + 1);
      NextEntry(acc, es, e);
      EntriesTurn(bytes, pos, opts, depth, acc, key, start);
      if depth + 1 + Depth(val) <= opts.maxRecursion {
        var next := start + |Encode(val)|;
        DecodeEncodedEntries(es[1..], bytes, next, opts, depth, acc + [e]);
      }
    }
  }

  /** The next key of a sorted dictionary is above, and so not among, those read before. */
  lemma NextKey(acc: seq<EntryRef>, es: seq<Entry>)
    requires es != [] && SortedKeys(RefKeys(acc) + KeysOf(es))
    ensures forall i :: 0 <= i < |acc| ==> KeyLess(acc[i].key, es[0].key)
    ensures es[0].key !in RefKeys(acc) && !OutOfOrder(acc, es[0].key)
  {
    var keys := RefKeys(acc) + KeysOf(es);
    assert keys[|acc|] == es[0].key;
    forall i | 0 <= i < |acc| ensures KeyLess(acc[i].key, es[0].key) {
      assert keys[i] == acc[i].key;
    }
    KeyLessIrreflexive(es[0].key);
    if acc != [] {
      KeyLessAsymmetric(acc[|acc| - 1].key, es[0].key);
    }
  }

  /** Decoding the encoding of a value gives that value back, consuming it all, if and only if
      its depth is within the recursion limit, whatever the other options say. */
  lemma RoundTrip(v: Bencode, opts: DecodeOpt)
    requires WellFormed(v)
    ensures DecodeAll(Encode(v), opts).Ok? <==> Depth(v) <= opts.maxRecursion
    ensures DecodeAll(Encode(v), opts).Ok? ==>
            Plain(DecodeAll(Encode(v), opts).value) == v && DecodeAll(Encode(v), opts).value.buf == Encode(v)
  {
    assert Encode(v)[0..|Encode(v)|] == Encode(v);
    DecodeEncoded(v, Encode(v), 0, opts, 0);
    PlainSpanned(v);
  }

  /**
   * With bytes after it, an encoding within the depth decodes if and only if the whole input need not be consumed. The
   * buffer of the result is the encoding alone, so it tells where the other bytes start.
   */
  lemma TrailingBytes(v: Bencode, rest: seq<Byte>, opts: DecodeOpt)
    requires WellFormed(v)
    ensures var r := DecodeAll(Encode(v) + rest, opts);
            && (r.Ok? <==> Depth(v) <= opts.maxRecursion && (rest == [] || !opts.enforceFullDecode))
            && (r.Ok? ==> Plain(r.value) == v && r.value.buf == Encode(v))
            && (r.Err? && Depth(v) <= opts.maxRecursion ==> r.error == BytesEmpty(|Encode(v)|))
  {
    var bytes := Encode(v) + rest;
    assert bytes[0..|Encode(v)|] == Encode(v);
    DecodeEncoded(v, bytes, 0, opts, 0);
    PlainSpanned(v);
  }

  /** The dictionary {"asd": [-56]} as it is written. */
  lemma FormatExample()
    ensures Encode(Dict([Entry([97, 115, 100], List([Int(-56)]))])) ==
            [100, 51, 58, 97, 115, 100, 108, 105, 45, 53, 54, 101, 101, 101]
  {
    var number, items, key: seq<Byte> := Int(-56), [Int(-56)], [97, 115, 100];
    var e := Entry(key, List(items));
    NumberExample();
    hide Encode, Digits;
    assert items[1..] == [] && EncodeItems(items) == Encode(number);
    assert EncodeBytes(key) == [51, 58, 97, 115, 100];
    assert [e][1..] == [] && EncodeEntries([e]) == EncodeBytes(key) + Encode(e.val);
    ContainerExample(items, [e]);
  }

  lemma NumberExample()
    ensures Encode(Int(-56)) == [105, 45, 53, 54, 101] && Digits(3) == [51]
  {
    assert Digits(5) == [53];
    assert Digits(56) == [53, 54];
  }

  lemma ContainerExample(items: seq<Bencode>, es: seq<Entry>)
    ensures Encode(List(items)) == [LIST_START] + EncodeItems(items) + [BEN_END]
    ensures Encode(Dict(es)) == [DICT_START] + EncodeEntries(es) + [BEN_END]
  {}

  /** Encoding loses nothing: different values have different encodings. */
  lemma EncodeInjective(v: Bencode, w: Bencode)
    requires WellFormed(v) && WellFormed(w) && Encode(v) == Encode(w)
    ensures v == w
  {
    var opts := DecodeOpt(Max(Depth(v), Depth(w)), true, true);
    RoundTrip(v, opts);
    RoundTrip(w, opts);
  }
}
