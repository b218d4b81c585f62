/** Bencode values, the encoder and the decoder with its options. */
module Bencode {
  import opened Wrappers
  import opened Bytes
  import opened Decimal

  const BEN_END: Byte := 101
  const DICT_START: Byte := 100
  const LIST_START: Byte := 108
  const INT_START: Byte := 105
  const BYTE_LEN_END: Byte := 58

  // ----- Values

  /** A dictionary is an ordered map: its entries are kept strictly ascending by key. */
  datatype Bencode = Int(n: int) | Bytes(bytes: seq<Byte>) | List(items: seq<Bencode>) | Dict(entries: seq<Entry>)

  datatype Entry = Entry(key: seq<Byte>, val: Bencode)

  /** A decoded value, each part with the slice of the input it was read from. */
  datatype BencodeRef =
    | IntRef(n: int, buf: seq<Byte>)
    | BytesRef(bytes: seq<Byte>, buf: seq<Byte>)
    | ListRef(items: seq<BencodeRef>, buf: seq<Byte>)
    | DictRef(entries: seq<EntryRef>, buf: seq<Byte>)

  datatype EntryRef = EntryRef(key: seq<Byte>, val: BencodeRef)

  /** The byte order of slices: lexicographic, a proper prefix coming first. */
  predicate KeyLess(a: seq<Byte>, b: seq<Byte>) {
    b != [] && (a == [] || a[0] < b[0] || (a[0] == b[0] && KeyLess(a[1..], b[1..])))
  }

  predicate SortedKeys(keys: seq<seq<Byte>>) {
    forall i, j :: 0 <= i < j < |keys| ==> KeyLess(keys[i], keys[j])
  }

  function KeysOf(es: seq<Entry>): (r: seq<seq<Byte>>)
    ensures |r| == |es| && forall i :: 0 <= i < |es| ==> r[i] == es[i].key
  {
    seq(|es|, i requires 0 <= i < |es| => es[i].key)
  }

  function RefKeys(es: seq<EntryRef>): (r: seq<seq<Byte>>)
    ensures |r| == |es| && forall i :: 0 <= i < |es| ==> r[i] == es[i].key
  {
    seq(|es|, i requires 0 <= i < |es| => es[i].key)
  }

  /** What the host guarantees of a value: 64-bit integers, lengths that fit, ordered maps. */
  predicate WellFormed(v: Bencode) {
    match v
    case Int(n) => I64_MIN <= n <= I64_MAX
    case Bytes(b) => |b| <= I64_MAX
    case List(items) => forall i :: 0 <= i < |items| ==> WellFormed(items[i])
    case Dict(es) =>
      && SortedKeys(KeysOf(es))
      && forall i :: 0 <= i < |es| ==> |es[i].key| <= I64_MAX && WellFormed(es[i].val)
  }

  function Plain(r: BencodeRef): Bencode {
    match r
    case IntRef(n, _) => Int(n)
    case BytesRef(b, _) => Bytes(b)
    case ListRef(items, _) => List(PlainItems(items))
    case DictRef(es, _) => Dict(PlainEntries(es))
  }

  function PlainItems(items: seq<BencodeRef>): (r: seq<Bencode>) {
    seq(|items|, i requires 0 <= i < |items| => Plain(items[i]))
  }

  function PlainEntries(es: seq<EntryRef>): (r: seq<Entry>) {
    seq(|es|, i requires 0 <= i < |es| => Entry(es[i].key, Plain(es[i].val)))
  }

  // ----- The encoder

  function Encode(v: Bencode): (r: seq<Byte>)
    ensures r != [] && r[0] != BEN_END
    decreases v, 0
  {
    match v
    case Int(n) => [INT_START] + ToText(n) + [BEN_END]
    case Bytes(b) => EncodeBytes(b)
    case List(items) => [LIST_START] + EncodeItems(items) + [BEN_END]
    case Dict(es) => [DICT_START] + EncodeEntries(es) + [BEN_END]
  }

  function EncodeBytes(b: seq<Byte>): (r: seq<Byte>)
    ensures r != [] && IsDigit(r[0])
  {
    Digits(|b|) + [BYTE_LEN_END] + b
  }

  function EncodeItems(items: seq<Bencode>): (r: seq<Byte>)
    decreases items, 1
  {
    if items == [] then [] else Encode(items[0]) + EncodeItems(items[1..])
  }

  function EncodeEntries(es: seq<Entry>): (r: seq<Byte>)
    decreases es, 1
  {
    if es == [] then [] else EncodeBytes(es[0].key) + Encode(es[0].val) + EncodeEntries(es[1..])
  }

  // ----- The decoder

  datatype DecodeOpt = DecodeOpt(maxRecursion: nat, checkKeySort: bool, enforceFullDecode: bool)

  datatype BencodeParseError =
    | BytesEmpty(pos: nat)
    | InvalidByte(pos: nat)
    | InvalidIntNoDelimiter(pos: nat)
    | InvalidIntNegativeZero(pos: nat)
    | InvalidIntZeroPadding(pos: nat)
    | InvalidIntParseError(pos: nat)
    | InvalidKeyOrdering(pos: nat, key: seq<Byte>)
    | InvalidKeyDuplicates(pos: nat, key: seq<Byte>)
    | InvalidLengthNegative(pos: nat)
    | InvalidLengthOverflow(pos: nat)
    | InvalidRecursionExceeded(pos: nat, max: nat)

  datatype ParseResult<+T> = Ok(value: T) | Err(error: BencodeParseError) {
    predicate IsFailure() { Err? }
    function PropagateFailure<U>(): ParseResult<U> requires Err? { Err(error) }
    function Extract(): T requires Ok? { value }
  }

  function FindDelim(bytes: seq<Byte>, pos: nat, delim: Byte): (r: nat)
    requires pos <= |bytes|
    ensures pos <= r <= |bytes|
    ensures forall i :: pos <= i < r ==> bytes[i] != delim
    ensures r < |bytes| ==> bytes[r] == delim
    decreases |bytes| - pos
  {
    if pos == |bytes| || bytes[pos] == delim then pos else FindDelim(bytes, pos + 1, delim)
  }

  function CheckInt(s: seq<Byte>, pos: nat): ParseResult<int> {
    if |s| > 1 && s[0] == MINUS && s[1] == ZERO then Err(InvalidIntNegativeZero(pos))
    else if |s| > 1 && s[0] == ZERO then Err(InvalidIntZeroPadding(pos))
    else match ParseI64(s) case None => Err(InvalidIntParseError(pos)) case Some(n) => Ok(n)
  }

  function DecodeInt(bytes: seq<Byte>, pos: nat, delim: Byte): (r: ParseResult<(int, nat)>)
    requires pos <= |bytes|
    ensures r.Ok? ==> pos < r.value.1 <= |bytes|
  {
    var end := FindDelim(bytes, pos, delim);
    if end == |bytes| then Err(InvalidIntNoDelimiter(pos)) else
    var n :- CheckInt(bytes[pos..end], pos);
    Ok((n, end + 1))
  }

  function DecodeBytes(bytes: seq<Byte>, pos: nat): (r: ParseResult<(seq<Byte>, nat)>)
    requires pos <= |bytes|
    ensures r.Ok? ==> pos < r.value.1 <= |bytes|
  {
    var (n, start) :- DecodeInt(bytes, pos, BYTE_LEN_END);
    if n < 0 then Err(InvalidLengthNegative(pos))
    else if n > |bytes| - start then Err(InvalidLengthOverflow(pos))
    else Ok((bytes[start..start + n], start + n))
  }

  function Decode(bytes: seq<Byte>, pos: nat, opts: DecodeOpt, depth: nat): (r: ParseResult<(BencodeRef, nat)>)
    requires pos <= |bytes|
    ensures r.Ok? ==> pos < r.value.1 <= |bytes|
    decreases |bytes| - pos, 0
  {
    if depth >= opts.maxRecursion then Err(InvalidRecursionExceeded(pos, depth))
    else if pos == |bytes| then Err(BytesEmpty(pos))
    else if bytes[pos] == INT_START then
      var (n, next) :- DecodeInt(bytes, pos + 1, BEN_END);
      Ok((IntRef(n, bytes[pos..next]), next))
    else if bytes[pos] == LIST_START then
      var (items, next) :- DecodeItems(bytes, pos + 1, opts, depth, []);
      Ok((ListRef(items, bytes[pos..next]), next))
    else if bytes[pos] == DICT_START then
      var (es, next) :- DecodeEntries(bytes, pos + 1, opts, depth, []);
      Ok((DictRef(es, bytes[pos..next]), next))
    else if IsDigit(bytes[pos]) then
      var (b, next) :- DecodeBytes(bytes, pos);
      Ok((BytesRef(b, bytes[pos..next]), next))
    else Err(InvalidByte(pos))
  }

  function DecodeItems(bytes: seq<Byte>, pos: nat, opts: DecodeOpt, depth: nat, acc: seq<BencodeRef>)
    : (r: ParseResult<(seq<BencodeRef>, nat)>)
    requires pos <= |bytes|
    ensures r.Ok? ==> pos < r.value.1 <= |bytes|
    decreases |bytes| - pos, 1
  {
    if pos == |bytes| then Err(BytesEmpty(pos))
    else if bytes[pos] == BEN_END then Ok((acc, pos + 1))
    else
      var (item, next) :- Decode(bytes, pos, opts, depth + 1);
      DecodeItems(bytes, next, opts, depth, acc + [item])
  }

  /** The ordered map with one more entry. */
  function Insert(es: seq<EntryRef>, e: EntryRef): (r: seq<EntryRef>) {
    if es == [] || KeyLess(e.key, es[0].key) then [e] + es else [es[0]] + Insert(es[1..], e)
  }

  predicate OutOfOrder(es: seq<EntryRef>, key: seq<Byte>) {
    es != [] && KeyLess(key, es[|es| - 1].key)
  }

  function DecodeEntries(bytes: seq<Byte>, pos: nat, opts: DecodeOpt, depth: nat, acc: seq<EntryRef>)
    : (r: ParseResult<(seq<EntryRef>, nat)>)
    requires pos <= |bytes|
    ensures r.Ok? ==> pos < r.value.1 <= |bytes|
    decreases |bytes| - pos, 1
  {
    if pos == |bytes| then Err(BytesEmpty(pos))
    else if bytes[pos] == BEN_END then Ok((acc, pos + 1))
    else
      var (key, start) :- DecodeBytes(bytes, pos);
      if opts.checkKeySort && OutOfOrder(acc, key) then Err(InvalidKeyOrdering(pos, key)) else
      var (val, next) :- Decode(bytes, start, opts, depth + 1);
      if key in RefKeys(acc) then Err(InvalidKeyDuplicates(start, key)) else
      DecodeEntries(bytes, next, opts, depth, Insert(acc, EntryRef(key, val)))
  }

  /** One turn of the dictionary loop on a key that is neither out of order nor a duplicate. */
  lemma EntriesTurn(bytes: seq<Byte>, pos: nat, opts: DecodeOpt, depth: nat, acc: seq<EntryRef>, key: seq<Byte>, start: nat)
    requires pos < |bytes| && bytes[pos] != BEN_END && DecodeBytes(bytes, pos) == Ok((key, start))
    requires key !in RefKeys(acc) && !(opts.checkKeySort && OutOfOrder(acc, key))
    ensures DecodeEntries(bytes, pos, opts, depth, acc)
         == match Decode(bytes, start, opts, depth + 1)
            case Err(e) => Err(e)
            case Ok(v) => DecodeEntries(bytes, v.1, opts, depth, Insert(acc, EntryRef(key, v.0)))
  {}

  /** `BencodeRef::decode`: from the start, with the optional full-consumption check. */
  function DecodeAll(bytes: seq<Byte>, opts: DecodeOpt): (r: ParseResult<BencodeRef>) {
    var (b, end) :- Decode(bytes, 0, opts, 0);
    if end != |bytes| && opts.enforceFullDecode then Err(BytesEmpty(end)) else Ok(b)
  }
}
