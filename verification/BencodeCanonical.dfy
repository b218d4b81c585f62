/** Strict decoding accepts one spelling per value, except for numbers written with a plus sign. */
module BencodeCanonical {
  import opened Wrappers
  import opened Bytes
  import opened Decimal
  import opened Bencode
  import opened BencodeKeys
  import opened BencodeRoundTrip

  // ----- No number the decoder reads starts with a plus sign

  predicate PlusFree(bytes: seq<Byte>, pos: nat, opts: DecodeOpt, depth: nat)
    requires pos <= |bytes| && Decode(bytes, pos, opts, depth).Ok?
    decreases |bytes| - pos, 0
  {
    if bytes[pos] == INT_START then bytes[pos + 1] != PLUS
    else if bytes[pos] == LIST_START then PlusFreeItems(bytes, pos + 1, opts, depth, [])
    else if bytes[pos] == DICT_START then PlusFreeEntries(bytes, pos + 1, opts, depth, [])
    else true
  }

  predicate PlusFreeItems(bytes: seq<Byte>, pos: nat, opts: DecodeOpt, depth: nat, acc: seq<BencodeRef>)
    requires pos <= |bytes| && DecodeItems(bytes, pos, opts, depth, acc).Ok?
    decreases |bytes| - pos, 1
  {
    bytes[pos] == BEN_END ||
    (var (item, next) := Decode(bytes, pos, opts, depth + 1).value;
     PlusFree(bytes, pos, opts, depth + 1) && PlusFreeItems(bytes, next, opts, depth, acc + [item]))
  }

  predicate PlusFreeEntries(bytes: seq<Byte>, pos: nat, opts: DecodeOpt, depth: nat, acc: seq<EntryRef>)
    requires pos <= |bytes| && DecodeEntries(bytes, pos, opts, depth, acc).Ok?
    decreases |bytes| - pos, 1
  {
    bytes[pos] == BEN_END ||
    (var (key, start) := DecodeBytes(bytes, pos).value;
     var (val, next) := Decode(bytes, start, opts, depth + 1).value;
     && bytes[pos] != PLUS
     && PlusFree(bytes, start, opts, depth + 1)
     && PlusFreeEntries(bytes, next, opts, depth, Insert(acc, EntryRef(key, val))))
  }

  /** Re-encoding gives the bytes back when `free`, and fewer bytes otherwise. */
  predicate Reproduces(free: bool, enc: seq<Byte>, slice: seq<Byte>) {
    if free then enc == slice else |enc| < |slice|
  }

  lemma ReproducesConcat(f: bool, a: seq<Byte>, s: seq<Byte>, g: bool, b: seq<Byte>, t: seq<Byte>)
    requires Reproduces(f, a, s) && Reproduces(g, b, t)
    ensures Reproduces(f && g, a + b, s + t)
  {}

  lemma Cut(bytes: seq<Byte>, i: nat, j: nat, k: nat)
    requires i <= j <= k <= |bytes|
    ensures bytes[i..k] == bytes[i..j] + bytes[j..k]
  {}

  lemma CanonicalInt(bytes: seq<Byte>, pos: nat, delim: Byte)
    requires pos <= |bytes| && DecodeInt(bytes, pos, delim).Ok?
    ensures var (n, next) := DecodeInt(bytes, pos, delim).value;
            Reproduces(bytes[pos] != PLUS, ToText(n) + [delim], bytes[pos..next])
  {
    hide ToText, ParseI64, FindDelim;
    var (n, next) := DecodeInt(bytes, pos, delim).value;
    var s := bytes[pos..next - 1];
    assert ParseI64(s) == Some(n);
    assert s != [] by { assert ParseI64([]) == None by { EmptyIsNoNumber(); } }
    TextOfParse(s);
    assert bytes[pos..next] == s + [delim];
  }

  lemma EmptyIsNoNumber()
    ensures ParseI64([]) == None
  {}

  lemma CanonicalBytes(bytes: seq<Byte>, pos: nat)
    requires pos <= |bytes| && DecodeBytes(bytes, pos).Ok?
    ensures var (b, next) := DecodeBytes(bytes, pos).value;
            |b| <= I64_MAX && Reproduces(bytes[pos] != PLUS, EncodeBytes(b), bytes[pos..next])
  {
    hide DecodeInt, Digits;
    var (n, start) := DecodeInt(bytes, pos, BYTE_LEN_END).value;
    var (b, next) := DecodeBytes(bytes, pos).value;
    CanonicalInt(bytes, pos, BYTE_LEN_END);
    InRange(bytes, pos, BYTE_LEN_END);
    assert ToText(n) == Digits(|b|);
    Cut(bytes, pos, start, next);
    ReproducesConcat(bytes[pos] != PLUS, Digits(|b|) + [BYTE_LEN_END], bytes[pos..start], true, b, bytes[start..next]);
  }

  lemma InRange(bytes: seq<Byte>, pos: nat, delim: Byte)
    requires pos <= |bytes| && DecodeInt(bytes, pos, delim).Ok?
    ensures I64_MIN <= DecodeInt(bytes, pos, delim).value.0 <= I64_MAX
  {
    hide FindDelim, Value, AllDigits;
  }

  // ----- Strict decoding

  lemma {:induction false} Canonical(bytes: seq<Byte>, pos: nat, opts: DecodeOpt, depth: nat)
    requires opts.checkKeySort && pos <= |bytes| && Decode(bytes, pos, opts, depth).Ok?
    ensures var (r, next) := Decode(bytes, pos, opts, depth).value;
            Reproduces(PlusFree(bytes, pos, opts, depth), Encode(Plain(r)), bytes[pos..next])
    decreases |bytes| - pos, 0
  {
    hide DecodeInt, DecodeBytes, DecodeItems, DecodeEntries, ToText, EncodeBytes, EncodeItems, EncodeEntries, PlainItems, PlainEntries, PlusFreeItems, PlusFreeEntries;
    var (r, next) := Decode(bytes, pos, opts, depth).value;
    Cut(bytes, pos, pos + 1, next);
    var head := [bytes[pos]];
    assert bytes[pos..pos + 1] == head;
    if bytes[pos] == INT_START {
      CanonicalInt(bytes, pos + 1, BEN_END);
      ReproducesConcat(true, head, head, PlusFree(bytes, pos, opts, depth), ToText(r.n) + [BEN_END], bytes[pos + 1..next]);
      assert Encode(Plain(r)) == head + (ToText(r.n) + [BEN_END]);
    } else if bytes[pos] == LIST_START {
      CanonicalItems(bytes, pos + 1, opts, depth, []);
      var enc := EncodeItems(PlainItems(r.items)) + [BEN_END];
      assert r.items[0..] == r.items;
      ReproducesConcat(true, head, head, PlusFree(bytes, pos, opts, depth), enc, bytes[pos + 1..next]);
      assert Encode(Plain(r)) == head + enc;
    } else if bytes[pos] == DICT_START {
      CanonicalEntries(bytes, pos + 1, opts, depth, []);
      var enc := EncodeEntries(PlainEntries(r.entries)) + [BEN_END];
      assert r.entries[0..] == r.entries;
      ReproducesConcat(true, head, head, PlusFree(bytes, pos, opts, depth), enc, bytes[pos + 1..next]);
      assert Encode(Plain(r)) == head + enc;
    } else {
      CanonicalBytes(bytes, pos);
    }
  }

  lemma ItemsUnfold(items: seq<BencodeRef>)
    requires items != []
    ensures EncodeItems(PlainItems(items)) == Encode(Plain(items[0])) + EncodeItems(PlainItems(items[1..]))
  {
    hide Encode, Plain;
    assert PlainItems(items)[1..] == PlainItems(items[1..]);
  }

  lemma {:induction false} CanonicalItems(bytes: seq<Byte>, pos: nat, opts: DecodeOpt, depth: nat, acc: seq<BencodeRef>)
    requires opts.checkKeySort && pos <= |bytes| && DecodeItems(bytes, pos, opts, depth, acc).Ok?
    ensures var (items, next) := DecodeItems(bytes, pos, opts, depth, acc).value;
            && acc <= items
            && Reproduces(PlusFreeItems(bytes, pos, opts, depth, acc), EncodeItems(PlainItems(items[|acc|..])) + [BEN_END], bytes[pos..next])
    decreases |bytes| - pos, 1
  {
    hide Decode, Encode, Plain, PlusFree;
    var (items, next) := DecodeItems(bytes, pos, opts, depth, acc).value;
    if bytes[pos] != BEN_END {
      var (item, mid) := Decode(bytes, pos, opts, depth + 1).value;
      Canonical(bytes, pos, opts, depth + 1);
      CanonicalItems(bytes, mid, opts, depth, acc + [item]);
      var rest := items[|acc|..];
      assert rest[0] == item && rest[1..] == items[|acc| + 1..];
      ItemsUnfold(rest);
      Cut(bytes, pos, mid, next);
      var enc := EncodeItems(PlainItems(rest[1..])) + [BEN_END];
      ReproducesConcat(PlusFree(bytes, pos, opts, depth + 1), Encode(Plain(item)), bytes[pos..mid],
                       PlusFreeItems(bytes, mid, opts, depth, acc + [item]), enc, bytes[mid..next]);
      assert EncodeItems(PlainItems(rest)) + [BEN_END] == Encode(Plain(item)) + enc;
    }
  }

  lemma EntriesUnfoldRef(es: seq<EntryRef>)
    requires es != []
    ensures EncodeEntries(PlainEntries(es)) == EncodeBytes(es[0].key) + Encode(Plain(es[0].val)) + EncodeEntries(PlainEntries(es[1..]))
  {
    hide Encode, EncodeBytes, Plain;
    assert PlainEntries(es)[1..] == PlainEntries(es[1..]);
  }

  lemma {:induction false} CanonicalEntries(bytes: seq<Byte>, pos: nat, opts: DecodeOpt, depth: nat, acc: seq<EntryRef>)
    requires opts.checkKeySort && pos <= |bytes| && DecodeEntries(bytes, pos, opts, depth, acc).Ok? && SortedEntries(acc)
    ensures var (es, next) := DecodeEntries(bytes, pos, opts, depth, acc).value;
            && acc <= es
            && Reproduces(PlusFreeEntries(bytes, pos, opts, depth, acc), EncodeEntries(PlainEntries(es[|acc|..])) + [BEN_END], bytes[pos..next])
    decreases |bytes| - pos, 1
  {
    hide Decode, DecodeBytes, Encode, EncodeBytes, Plain, PlusFree, Insert, KeyLess;
    var (es, next) := DecodeEntries(bytes, pos, opts, depth, acc).value;
    if bytes[pos] != BEN_END {
      var (key, start) := DecodeBytes(bytes, pos).value;
      var (val, mid) := Decode(bytes, start, opts, depth + 1).value;
      var e := EntryRef(key, val);
      AboveAll(acc, key);
      InsertLast(acc, e);
      CanonicalBytes(bytes, pos);
      Canonical(bytes, start, opts, depth + 1);
      CanonicalEntries(bytes, mid, opts, depth, acc + [e]);
      var rest := es[|acc|..];
      assert rest[0] == e && rest[1..] == es[|acc| + 1..];
      EntriesUnfoldRef(rest);
      Cut(bytes, pos, start, mid);
      Cut(bytes, pos, mid, next);
      var enc := EncodeEntries(PlainEntries(rest[1..])) + [BEN_END];
      var f := PlusFree(bytes, start, opts, depth + 1);
      ReproducesConcat(bytes[pos] != PLUS, EncodeBytes(key), bytes[pos..start], f, Encode(Plain(val)), bytes[start..mid]);
      ReproducesConcat(bytes[pos] != PLUS && f, EncodeBytes(key) + Encode(Plain(val)), bytes[pos..mid],
                       PlusFreeEntries(bytes, mid, opts, depth, acc + [e]), enc, bytes[mid..next]);
      assert EncodeEntries(PlainEntries(rest)) + [BEN_END] == EncodeBytes(key) + Encode(Plain(val)) + enc;
    }
  }

  /** With both checks on, re-encoding an accepted input gives exactly its bytes back
      if and only if none of its numbers starts with a plus sign. */
  lemma StrictIsCanonical(bytes: seq<Byte>, opts: DecodeOpt)
    requires opts.checkKeySort && opts.enforceFullDecode && DecodeAll(bytes, opts).Ok?
    ensures Encode(Plain(DecodeAll(bytes, opts).value)) == bytes <==> PlusFree(bytes, 0, opts, 0)
  {
    Canonical(bytes, 0, opts, 0);
    assert bytes[0..|bytes|] == bytes;
  }

  /** A plus sign is accepted and lost: `i+5e` decodes, and encodes as `i5e`. */
  lemma PlusIsLost(opts: DecodeOpt)
    requires opts.maxRecursion > 0
    ensures var bytes := [INT_START, PLUS, ZERO + 5, BEN_END];
            DecodeAll(bytes, opts).Ok? && Encode(Plain(DecodeAll(bytes, opts).value)) == [INT_START, ZERO + 5, BEN_END]
  {
    var bytes := [INT_START, PLUS, ZERO + 5, BEN_END];
    var s := bytes[1..3];
    assert bytes[1] != BEN_END && bytes[2] != BEN_END && bytes[3] == BEN_END;
    assert FindDelim(bytes, 1, BEN_END) == 3;
    assert s == [PLUS, ZERO + 5] && s[1..] == [ZERO + 5];
    assert Value([ZERO + 5]) == 10 * Value([]) + 5;
    assert ParseI64(s) == Some(5);
    assert Encode(Int(5)) == [INT_START, ZERO + 5, BEN_END];
  }

  // ----- What any options accept can be encoded and decoded again

  /** `r` stands for a well-formed value of depth at most `limit`. */
  predicate Sound(r: BencodeRef, limit: int) {
    WellFormed(Plain(r)) && Depth(Plain(r)) <= limit
  }

  predicate SoundEntry(e: EntryRef, limit: int) {
    |e.key| <= I64_MAX && Sound(e.val, limit)
  }

  lemma {:induction false} ItemsSound(items: seq<BencodeRef>, limit: nat)
    requires forall i :: 0 <= i < |items| ==> Sound(items[i], limit)
    ensures ItemsDepth(PlainItems(items)) <= limit
  {
    hide Plain, Depth, WellFormed;
    if items != [] {
      assert PlainItems(items)[1..] == PlainItems(items[1..]);
      ItemsSound(items[1..], limit);
    }
  }

  lemma {:induction false} EntriesSound(es: seq<EntryRef>, limit: nat)
    requires forall e :: e in es ==> SoundEntry(e, limit)
    ensures EntriesDepth(PlainEntries(es)) <= limit
  {
    hide Plain, Depth, WellFormed;
    if es != [] {
      assert SoundEntry(es[0], limit);
      assert PlainEntries(es)[1..] == PlainEntries(es[1..]);
      EntriesSound(es[1..], limit);
    }
  }

  lemma DictSound(r: BencodeRef, limit: nat)
    requires r.DictRef? && SortedEntries(r.entries) && forall e :: e in r.entries ==> SoundEntry(e, limit)
    ensures Sound(r, limit + 1)
  {
    hide KeyLess;
    EntriesSound(r.entries, limit);
    var es := PlainEntries(r.entries);
    assert Plain(r) == Dict(es);
    forall i | 0 <= i < |es| ensures |es[i].key| <= I64_MAX && WellFormed(es[i].val) {
      assert r.entries[i] in r.entries;
    }
    assert SortedKeys(KeysOf(es));
  }

  lemma {:induction false} Decoded(bytes: seq<Byte>, pos: nat, opts: DecodeOpt, depth: nat)
    requires pos <= |bytes| && Decode(bytes, pos, opts, depth).Ok?
    ensures Sound(Decode(bytes, pos, opts, depth).value.0, opts.maxRecursion - depth)
    decreases |bytes| - pos, 0
  {
    hide DecodeInt, DecodeBytes, DecodeItems, DecodeEntries, ItemsDepth, EntriesDepth, KeyLess;
    var (r, next) := Decode(bytes, pos, opts, depth).value;
    var limit := opts.maxRecursion - depth - 1;
    match r
    case IntRef(_, _) => InRange(bytes, pos + 1, BEN_END);
    case BytesRef(_, _) => CanonicalBytes(bytes, pos);
    case ListRef(items, _) =>
      DecodedItems(bytes, pos + 1, opts, depth, []);
      ItemsSound(items, limit);
      assert Plain(r) == List(PlainItems(items));
    case DictRef(es, _) =>
      DecodedEntries(bytes, pos + 1, opts, depth, []);
      DictSound(r, limit);
  }

  lemma {:induction false} DecodedItems(bytes: seq<Byte>, pos: nat, opts: DecodeOpt, depth: nat, acc: seq<BencodeRef>)
    requires pos <= |bytes| && DecodeItems(bytes, pos, opts, depth, acc).Ok?
    requires forall i :: 0 <= i < |acc| ==> Sound(acc[i], opts.maxRecursion - depth - 1)
    ensures var items := DecodeItems(bytes, pos, opts, depth, acc).value.0;
            forall i :: 0 <= i < |items| ==> Sound(items[i], opts.maxRecursion - depth - 1)
    decreases |bytes| - pos, 1
  {
    hide Decode, Sound;
    if bytes[pos] != BEN_END {
      var (item, next) := Decode(bytes, pos, opts, depth + 1).value;
      Decoded(bytes, pos, opts, depth + 1);
      DecodedItems(bytes, next, opts, depth, acc + [item]);
    }
  }

  lemma {:induction false} DecodedEntries(bytes: seq<Byte>, pos: nat, opts: DecodeOpt, depth: nat, acc: seq<EntryRef>)
    requires pos <= |bytes| && DecodeEntries(bytes, pos, opts, depth, acc).Ok? && SortedEntries(acc)
    requires forall e :: e in acc ==> SoundEntry(e, opts.maxRecursion - depth - 1)
    ensures var es := DecodeEntries(bytes, pos, opts, depth, acc).value.0;
            SortedEntries(es) && forall e :: e in es ==> SoundEntry(e, opts.maxRecursion - depth - 1)
    decreases |bytes| - pos, 1
  {
    hide Decode, DecodeBytes, Sound, Insert, SortedEntries, OutOfOrder;
    if bytes[pos] != BEN_END {
      var (key, start) := DecodeBytes(bytes, pos).value;
      var (val, next) := Decode(bytes, start, opts, depth + 1).value;
      var e := EntryRef(key, val);
      CanonicalBytes(bytes, pos);
      Decoded(bytes, start, opts, depth + 1);
      NotYetThere(acc, key);
      InsertSorted(acc, e);
      forall x | x in Insert(acc, e) ensures SoundEntry(x, opts.maxRecursion - depth - 1) {
        InsertIn(acc, e, x);
      }
      DecodedEntries(bytes, next, opts, depth, Insert(acc, e));
    }
  }

  lemma NotYetThere(es: seq<EntryRef>, key: seq<Byte>)
    requires key !in RefKeys(es)
    ensures forall x :: x in es ==> x.key != key
  {
    forall x | x in es ensures x.key != key {
      var i :| 0 <= i < |es| && es[i] == x;
      assert RefKeys(es)[i] == x.key;
    }
  }

  /** What any options accept is, re-encoded, accepted by all others that allow the depth, as the same value. */
  lemma Normalises(bytes: seq<Byte>, opts: DecodeOpt, again: DecodeOpt)
    requires DecodeAll(bytes, opts).Ok? && opts.maxRecursion <= again.maxRecursion
    ensures var v := Plain(DecodeAll(bytes, opts).value);
            DecodeAll(Encode(v), again).Ok? && Plain(DecodeAll(Encode(v), again).value) == v
  {
    Decoded(bytes, 0, opts, 0);
    RoundTrip(Plain(DecodeAll(bytes, opts).value), again);
  }
}
