/** Dictionaries whose keys come in any order: when they are accepted, and what they decode to. */
module BencodeOrder {
  import opened Bytes
  import opened Decimal
  import opened Bencode
  import opened BencodeKeys
  import opened BencodeRoundTrip

  /** What the encoder guarantees of an entry, whatever its neighbours. */
  predicate Encodable(es: seq<Entry>) {
    forall i :: 0 <= i < |es| ==> |es[i].key| <= I64_MAX && WellFormed(es[i].val)
  }

  /** No key occurs twice, and none is there already. */
  predicate NewKeys(acc: seq<EntryRef>, es: seq<Entry>) {
    && (forall x, i :: x in acc && 0 <= i < |es| ==> x.key != es[i].key)
    && (forall i, j :: 0 <= i < j < |es| ==> es[i].key != es[j].key)
  }

  lemma KeyIsThere(acc: seq<EntryRef>, key: seq<Byte>)
    ensures key in RefKeys(acc) <==> exists x :: x in acc && x.key == key
  {
    var keys := RefKeys(acc);
    if key in keys {
      var i :| 0 <= i < |keys| && keys[i] == key;
      assert acc[i] in acc;
    }
    if x :| x in acc && x.key == key {
      var i :| 0 <= i < |acc| && acc[i] == x;
      assert keys[i] == key;
    }
  }

  /** One turn of the dictionary loop, whatever becomes of it. */
  lemma EntriesStep(bytes: seq<Byte>, pos: nat, opts: DecodeOpt, depth: nat, acc: seq<EntryRef>, key: seq<Byte>, start: nat)
    requires pos < |bytes| && bytes[pos] != BEN_END && DecodeBytes(bytes, pos) == Ok((key, start))
    ensures var r := DecodeEntries(bytes, pos, opts, depth, acc);
            if (opts.checkKeySort && OutOfOrder(acc, key)) || Decode(bytes, start, opts, depth + 1).Err? || key in RefKeys(acc)
            then r.Err?
            else var (val, next) := Decode(bytes, start, opts, depth + 1).value;
                 r == DecodeEntries(bytes, next, opts, depth, Insert(acc, EntryRef(key, val)))
  {
    hide Decode, DecodeBytes, OutOfOrder, Insert, RefKeys;
  }

  lemma NewKeysNext(acc: seq<EntryRef>, es: seq<Entry>, e: EntryRef)
    requires es != [] && e.key == es[0].key
    ensures NewKeys(acc, es) <==> (e.key !in RefKeys(acc) && NewKeys(Insert(acc, e), es[1..]))
  {
    hide Insert, RefKeys;
    KeyIsThere(acc, e.key);
    forall x ensures x in Insert(acc, e) <==> x in acc || x == e {
      InsertIn(acc, e, x);
    }
    if NewKeys(acc, es) {
      assert forall i :: 0 <= i < |es| - 1 ==> es[1..][i] == es[i + 1];
    }
    if e.key !in RefKeys(acc) && NewKeys(Insert(acc, e), es[1..]) {
      forall i, j | 0 <= i < j < |es| ensures es[i].key != es[j].key {
        assert es[1..][j - 1] == es[j];
        assert e in Insert(acc, e);
        assert i > 0 ==> es[1..][i - 1] == es[i];
      }
      forall x, i | x in acc && 0 <= i < |es| ensures x.key != es[i].key {
        assert i > 0 ==> es[1..][i - 1] == es[i];
      }
    }
  }

  lemma OutOfOrderIsUnsorted(acc: seq<EntryRef>, es: seq<Entry>)
    requires es != [] && OutOfOrder(acc, es[0].key)
    ensures !SortedKeys(RefKeys(acc) + KeysOf(es))
  {
    hide KeyLess;
    var keys, n := RefKeys(acc) + KeysOf(es), |acc|;
    assert keys[n - 1] == acc[n - 1].key && keys[n] == es[0].key;
    if KeyLess(keys[n - 1], keys[n]) {
      KeyLessAsymmetric(keys[n - 1], keys[n]);
    }
  }

  lemma SortedNext(acc: seq<EntryRef>, es: seq<Entry>, e: EntryRef)
    requires es != [] && e.key == es[0].key && SortedEntries(acc) && !OutOfOrder(acc, e.key) && e.key !in RefKeys(acc)
    ensures RefKeys(Insert(acc, e)) + KeysOf(es[1..]) == RefKeys(acc) + KeysOf(es)
  {
    hide KeyLess;
    AboveAll(acc, e.key);
    InsertLast(acc, e);
    assert RefKeys(acc + [e]) + KeysOf(es[1..]) == RefKeys(acc) + KeysOf(es);
  }

  /** The entries of `r` are those of `acc` and of `es`. */
  ghost predicate Joins(r: seq<EntryRef>, acc: seq<EntryRef>, es: seq<Entry>) {
    SortedEntries(r) && forall x :: x in PlainEntries(r) <==> x in PlainEntries(acc) || x in es
  }

  lemma {:induction false} PlainInsert(acc: seq<EntryRef>, e: EntryRef, x: Entry)
    ensures x in PlainEntries(Insert(acc, e)) <==> x in PlainEntries(acc) || x == Entry(e.key, Plain(e.val))
  {
    hide KeyLess, Plain;
    if acc == [] || KeyLess(e.key, acc[0].key) {
      assert PlainEntries([e] + acc) == [Entry(e.key, Plain(e.val))] + PlainEntries(acc);
    } else {
      PlainInsert(acc[1..], e, x);
      assert PlainEntries([acc[0]] + Insert(acc[1..], e)) == [Entry(acc[0].key, Plain(acc[0].val))] + PlainEntries(Insert(acc[1..], e));
      assert PlainEntries(acc) == [Entry(acc[0].key, Plain(acc[0].val))] + PlainEntries(acc[1..]);
    }
  }

  lemma JoinsNext(r: seq<EntryRef>, acc: seq<EntryRef>, es: seq<Entry>, e: EntryRef)
    requires es != [] && Entry(e.key, Plain(e.val)) == es[0] && Joins(r, Insert(acc, e), es[1..])
    ensures Joins(r, acc, es)
  {
    hide Insert, Plain, PlainEntries, SortedEntries;
    forall x ensures x in PlainEntries(r) <==> x in PlainEntries(acc) || x in es {
      PlainInsert(acc, e, x);
      assert es == [es[0]] + es[1..];
    }
  }

  lemma JoinsEnd(acc: seq<EntryRef>)
    requires SortedEntries(acc)
    ensures Joins(acc, acc, [])
  {}

  /** When the dictionary loop accepts encoded entries, from the entries read before. */
  predicate Accepts(es: seq<Entry>, opts: DecodeOpt, depth: nat, acc: seq<EntryRef>) {
    && depth + 1 + EntriesDepth(es) <= opts.maxRecursion && NewKeys(acc, es)
    && (opts.checkKeySort ==> SortedKeys(RefKeys(acc) + KeysOf(es)))
  }

  lemma AcceptsNext(es: seq<Entry>, opts: DecodeOpt, depth: nat, acc: seq<EntryRef>, e: EntryRef)
    requires es != [] && e.key == es[0].key && SortedEntries(acc)
    ensures Accepts(es, opts, depth, acc) <==>
              && depth + 1 + Depth(es[0].val) <= opts.maxRecursion
              && e.key !in RefKeys(acc) && !(opts.checkKeySort && OutOfOrder(acc, e.key))
              && Accepts(es[1..], opts, depth, Insert(acc, e))
  {
    hide NewKeys, SortedKeys, SortedEntries, OutOfOrder, Insert, RefKeys, KeysOf, Depth;
    NewKeysNext(acc, es, e);
    if OutOfOrder(acc, e.key) {
      OutOfOrderIsUnsorted(acc, es);
    } else if e.key !in RefKeys(acc) {
      SortedNext(acc, es, e);
    }
  }

  lemma AcceptsEnd(opts: DecodeOpt, depth: nat, acc: seq<EntryRef>)
    requires SortedEntries(acc) && depth < opts.maxRecursion
    ensures Accepts([], opts, depth, acc)
  {
    hide KeyLess;
    assert RefKeys(acc) + KeysOf([]) == RefKeys(acc);
  }

  lemma {:induction false} DecodeInAnyOrder(es: seq<Entry>, bytes: seq<Byte>, pos: nat, opts: DecodeOpt, depth: nat, acc: seq<EntryRef>)
    requires Encodable(es) && SortedEntries(acc)
    requires Reads(bytes, pos, EncodeEntries(es) + [BEN_END]) && depth < opts.maxRecursion
    ensures var r := DecodeEntries(bytes, pos, opts, depth, acc);
            && (r.Ok? <==> Accepts(es, opts, depth, acc))
            && (r.Ok? ==> r.value.1 == pos + |EncodeEntries(es)| + 1 && Joins(r.value.0, acc, es))
    decreases |es|
  {
    hide Reads, Decode, DecodeBytes, Encode, EncodeBytes, Spanned, Depth, WellFormed;
    hide SortedEntries, Insert, RefKeys, OutOfOrder, Accepts, Joins;
    ReadsAt(bytes, pos, EncodeEntries(es) + [BEN_END], 0);
    if es == [] {
      JoinsEnd(acc);
      AcceptsEnd(opts, depth, acc);
    } else {
      hide DecodeEntries, EncodeEntries, SpannedEntries, EntriesDepth;
      var key, val, e := es[0].key, es[0].val, EntryRef(es[0].key, Spanned(es[0].val));
      EntriesUnfold(es, acc);
      var start := pos + |EncodeBytes(key)|;
      EntriesRead(es, bytes, pos);
      DecodeEncodedBytes(key, bytes, pos);
      DecodeEncoded(val, bytes, start, opts, depth + 1);
      PlainSpanned(val);
      EntriesStep(bytes, pos, opts, depth, acc, key, start);
      AcceptsNext(es, opts, depth, acc, e);
      if depth + 1 + Depth(val) <= opts.maxRecursion && key !in RefKeys(acc) && !(opts.checkKeySort && OutOfOrder(acc, key)) {
        KeyIsThere(acc, key);
        InsertSorted(acc, e);
        DecodeInAnyOrder(es[1..], bytes, start + |Encode(val)|, opts, depth, Insert(acc, e));
        if Accepts(es, opts, depth, acc) {
          JoinsNext(DecodeEntries(bytes, pos, opts, depth, acc).value.0, acc, es, e);
        }
      }
    }
  }

  /**
   * A dictionary written with its entries in any order is accepted if and only if its depth is allowed, no key occurs
   * twice and, when key order is checked, the keys ascend. It decodes to the dictionary of the same entries, in order.
   */
  lemma AnyKeyOrder(es: seq<Entry>, opts: DecodeOpt)
    requires Encodable(es)
    ensures var r := DecodeAll(Encode(Dict(es)), opts);
            && (r.Ok? <==>
                  && Depth(Dict(es)) <= opts.maxRecursion
                  && (forall i, j :: 0 <= i < j < |es| ==> es[i].key != es[j].key)
                  && (opts.checkKeySort ==> SortedKeys(KeysOf(es))))
            && (r.Ok? ==>
                  && Plain(r.value).Dict? && SortedKeys(KeysOf(Plain(r.value).entries))
                  && forall x :: x in Plain(r.value).entries <==> x in es)
  {
    hide DecodeEntries, EncodeEntries, EntriesDepth, KeyLess;
    var bytes := Encode(Dict(es));
    var s := EncodeEntries(es) + [BEN_END];
    assert bytes == [DICT_START] + s && Reads(bytes, 0, [DICT_START] + s);
    ReadsConcat(bytes, 0, [DICT_START], s);
    assert RefKeys([]) + KeysOf(es) == KeysOf(es);
    if opts.maxRecursion > 0 {
      DecodeInAnyOrder(es, bytes, 1, opts, 0, []);
    }
  }
}
