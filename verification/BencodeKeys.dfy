/** The order of dictionary keys, and the ordered map the decoder fills. */
module BencodeKeys {
  import opened Bytes
  import opened Bencode

  lemma {:induction false} KeyLessIrreflexive(a: seq<Byte>)
    ensures !KeyLess(a, a)
  {
    if a != [] {
      KeyLessIrreflexive(a[1..]);
    }
  }

  lemma {:induction false} KeyLessAsymmetric(a: seq<Byte>, b: seq<Byte>)
    requires KeyLess(a, b)
    ensures !KeyLess(b, a)
  {
    if a != [] && a[0] == b[0] {
      KeyLessAsymmetric(a[1..], b[1..]);
    }
  }

  lemma {:induction false} InsertLast(es: seq<EntryRef>, e: EntryRef)
    requires forall i :: 0 <= i < |es| ==> KeyLess(es[i].key, e.key)
    ensures Insert(es, e) == es + [e]
  {
    if es != [] {
      KeyLessAsymmetric(es[0].key, e.key);
      InsertLast(es[1..], e);
    }
  }

  lemma {:induction false} InsertIn(es: seq<EntryRef>, e: EntryRef, x: EntryRef)
    ensures x in Insert(es, e) <==> x in es || x == e
  {
    if es != [] {
      InsertIn(es[1..], e, x);
    }
  }

  lemma {:induction false} KeyLessTotal(a: seq<Byte>, b: seq<Byte>)
    ensures KeyLess(a, b) || a == b || KeyLess(b, a)
  {
    if a != [] && b != [] && a[0] == b[0] {
      KeyLessTotal(a[1..], b[1..]);
      assert a == [a[0]] + a[1..] && b == [b[0]] + b[1..];
    }
  }

  lemma {:induction false} KeyLessTransitive(a: seq<Byte>, b: seq<Byte>, c: seq<Byte>)
    requires KeyLess(a, b) && KeyLess(b, c)
    ensures KeyLess(a, c)
  {
    if a != [] && a[0] == b[0] == c[0] {
      KeyLessTransitive(a[1..], b[1..], c[1..]);
    }
  }

  /** A key that is neither below the last one nor present is above all of them. */
  lemma AboveAll(es: seq<EntryRef>, key: seq<Byte>)
    requires SortedKeys(RefKeys(es)) && !OutOfOrder(es, key) && key !in RefKeys(es)
    ensures forall i :: 0 <= i < |es| ==> KeyLess(es[i].key, key)
  {
    if es != [] {
      var keys, last := RefKeys(es), |es| - 1;
      assert keys[last] == es[last].key;
      KeyLessTotal(key, keys[last]);
      forall i | 0 <= i < |es| ensures KeyLess(es[i].key, key) {
        assert keys[i] == es[i].key;
        if i < last {
          KeyLessTransitive(keys[i], keys[last], key);
        }
      }
    }
  }

  /** The same as sortedness of the key list, entry by entry. */
  predicate SortedEntries(es: seq<EntryRef>) {
    forall i, j :: 0 <= i < j < |es| ==> KeyLess(es[i].key, es[j].key)
  }

  lemma {:induction false} InsertSorted(es: seq<EntryRef>, e: EntryRef)
    requires SortedEntries(es) && forall x :: x in es ==> x.key != e.key
    ensures SortedEntries(Insert(es, e))
  {
    hide KeyLess;
    if es != [] {
      KeyLessTotal(e.key, es[0].key);
      if KeyLess(e.key, es[0].key) {
        forall j | 1 <= j < |es| ensures KeyLess(e.key, es[j].key) {
          KeyLessTransitive(e.key, es[0].key, es[j].key);
        }
      } else {
        InsertSorted(es[1..], e);
        var rest := Insert(es[1..], e);
        forall j | 0 <= j < |rest| ensures KeyLess(es[0].key, rest[j].key) {
          InsertIn(es[1..], e, rest[j]);
        }
      }
    }
  }
}
