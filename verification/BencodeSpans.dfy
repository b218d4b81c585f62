/** Decoding depends only on the bytes it consumes, so every buffer decodes to its own value. */
module BencodeSpans {
  import opened Wrappers
  import opened Bytes
  import opened Decimal
  import opened Bencode
  import opened BencodeKeys

  /** `n` bytes of `a` from `p` are the `n` bytes of `b` from `q`. */
  predicate SameBytes(a: seq<Byte>, p: nat, b: seq<Byte>, q: nat, n: nat) {
    p + n <= |a| && q + n <= |b| && a[p..p + n] == b[q..q + n]
  }

  lemma SameSub(a: seq<Byte>, p: nat, b: seq<Byte>, q: nat, n: nat, i: nat, m: nat)
    requires SameBytes(a, p, b, q, n) && i + m <= n
    ensures SameBytes(a, p + i, b, q + i, m) && p + i + m <= |a| && q + i + m <= |b|
  {
    SubSlice(a, p, n, i, m);
    SubSlice(b, q, n, i, m);
  }

  lemma SameAt(a: seq<Byte>, p: nat, b: seq<Byte>, q: nat, n: nat, i: nat)
    requires SameBytes(a, p, b, q, n) && i < n
    ensures p + i < |a| && q + i < |b| && a[p + i] == b[q + i]
  {
    assert a[p..p + n][i] == b[q..q + n][i];
  }

  lemma LocalInt(a: seq<Byte>, p: nat, b: seq<Byte>, q: nat, delim: Byte)
    requires p <= |a| && DecodeInt(a, p, delim).Ok?
    requires SameBytes(a, p, b, q, DecodeInt(a, p, delim).value.1 - p)
    ensures DecodeInt(b, q, delim) == Ok((DecodeInt(a, p, delim).value.0, q + (DecodeInt(a, p, delim).value.1 - p)))
  {
    hide FindDelim, ParseI64;
    var end := FindDelim(a, p, delim);
    var n := end - p;
    forall i | q <= i <= q + n ensures b[i] == a[p + (i - q)] {
      SameAt(a, p, b, q, n + 1, i - q);
    }
    assert b[q + n] == delim;
    assert FindDelim(b, q, delim) == q + n;
    SameSub(a, p, b, q, n + 1, 0, n);
  }

  lemma LocalBytes(a: seq<Byte>, p: nat, b: seq<Byte>, q: nat)
    requires p <= |a| && DecodeBytes(a, p).Ok?
    requires SameBytes(a, p, b, q, DecodeBytes(a, p).value.1 - p)
    ensures DecodeBytes(b, q) == Ok((DecodeBytes(a, p).value.0, q + (DecodeBytes(a, p).value.1 - p)))
  {
    hide DecodeInt;
    var (n, start) := DecodeInt(a, p, BYTE_LEN_END).value;
    var total := DecodeBytes(a, p).value.1 - p;
    SameSub(a, p, b, q, total, 0, start - p);
    LocalInt(a, p, b, q, BYTE_LEN_END);
    SameSub(a, p, b, q, total, start - p, n);
  }

  // ----- What numbers and strings are accepted

  /** Neither padded with zeros nor a negative zero. */
  predicate Unpadded(s: seq<Byte>) {
    |s| > 1 ==> s[0] != ZERO && !(s[0] == MINUS && s[1] == ZERO)
  }

  /** A number is what stands before the first delimiter, unpadded and in range. */
  lemma DecodeIntIff(bytes: seq<Byte>, pos: nat, delim: Byte, n: int, next: nat)
    requires pos <= |bytes|
    ensures DecodeInt(bytes, pos, delim) == Ok((n, next)) <==>
              && pos < next <= |bytes| && bytes[next - 1] == delim && delim !in bytes[pos..next - 1]
              && Unpadded(bytes[pos..next - 1]) && ParseI64(bytes[pos..next - 1]) == Some(n)
  {
    hide ParseI64, FindDelim;
    var end := FindDelim(bytes, pos, delim);
    if pos < next <= |bytes| && bytes[next - 1] == delim && delim !in bytes[pos..next - 1] {
      forall i | pos <= i < next - 1 ensures bytes[i] != delim {
        assert bytes[i] == bytes[pos..next - 1][i - pos];
      }
      assert end == next - 1;
    }
  }

  /** A string is a length that is not negative and that many bytes after it. */
  lemma DecodeBytesIff(bytes: seq<Byte>, pos: nat, b: seq<Byte>, next: nat)
    requires pos <= |bytes|
    ensures DecodeBytes(bytes, pos) == Ok((b, next)) <==>
              && |b| <= next <= |bytes| && DecodeInt(bytes, pos, BYTE_LEN_END) == Ok((|b|, next - |b|))
              && bytes[next - |b|..next] == b
  {
    hide DecodeInt;
  }

  /** A decoded value moves with its bytes: any context, any smaller depth, the same result. */
  lemma {:induction false} LocalDecode(a: seq<Byte>, p: nat, b: seq<Byte>, q: nat, opts: DecodeOpt, d: nat, e: nat)
    requires p <= |a| && Decode(a, p, opts, d).Ok? && e <= d
    requires SameBytes(a, p, b, q, Decode(a, p, opts, d).value.1 - p)
    ensures Decode(b, q, opts, e) == Ok((Decode(a, p, opts, d).value.0, q + (Decode(a, p, opts, d).value.1 - p)))
    decreases |a| - p, 0
  {
    hide DecodeInt, DecodeBytes, DecodeItems, DecodeEntries;
    var n := Decode(a, p, opts, d).value.1 - p;
    SameAt(a, p, b, q, n, 0);
    SameSub(a, p, b, q, n, 1, n - 1);
    if a[p] == INT_START {
      LocalInt(a, p + 1, b, q + 1, BEN_END);
    } else if a[p] == LIST_START {
      LocalItems(a, p + 1, b, q + 1, opts, d, e, []);
    } else if a[p] == DICT_START {
      var (es, next) := DecodeEntries(a, p + 1, opts, d, []).value;
      LocalEntries(a, p + 1, b, q + 1, opts, d, e, [], es, next);
    } else {
      LocalBytes(a, p, b, q);
    }
  }

  lemma {:induction false} LocalItems(a: seq<Byte>, p: nat, b: seq<Byte>, q: nat, opts: DecodeOpt, d: nat, e: nat, acc: seq<BencodeRef>)
    requires p <= |a| && DecodeItems(a, p, opts, d, acc).Ok? && e <= d
    requires SameBytes(a, p, b, q, DecodeItems(a, p, opts, d, acc).value.1 - p)
    ensures DecodeItems(b, q, opts, e, acc)
         == Ok((DecodeItems(a, p, opts, d, acc).value.0, q + (DecodeItems(a, p, opts, d, acc).value.1 - p)))
    decreases |a| - p, 1
  {
    hide SameBytes, Decode;
    var n := DecodeItems(a, p, opts, d, acc).value.1 - p;
    SameAt(a, p, b, q, n, 0);
    if a[p] != BEN_END {
      var (item, next) := Decode(a, p, opts, d + 1).value;
      SameSub(a, p, b, q, n, 0, next - p);
      LocalDecode(a, p, b, q, opts, d + 1, e + 1);
      SameSub(a, p, b, q, n, next - p, n - (next - p));
      LocalItems(a, next, b, q + (next - p), opts, d, e, acc + [item]);
    }
  }

  /** What one accepted turn of the dictionary loop went through. */
  lemma EntriesTurned(bytes: seq<Byte>, pos: nat, opts: DecodeOpt, depth: nat, acc: seq<EntryRef>)
    returns (key: seq<Byte>, start: nat, val: BencodeRef, mid: nat)
    requires pos < |bytes| && bytes[pos] != BEN_END && DecodeEntries(bytes, pos, opts, depth, acc).Ok?
    ensures DecodeBytes(bytes, pos) == Ok((key, start)) && start <= |bytes| && Decode(bytes, start, opts, depth + 1) == Ok((val, mid))
    ensures pos < start < mid <= |bytes|
    ensures key !in RefKeys(acc) && !(opts.checkKeySort && OutOfOrder(acc, key))
    ensures DecodeEntries(bytes, pos, opts, depth, acc) == DecodeEntries(bytes, mid, opts, depth, Insert(acc, EntryRef(key, val)))
  {
    hide Decode, DecodeBytes, OutOfOrder, Insert, RefKeys;
    key, start := DecodeBytes(bytes, pos).value.0, DecodeBytes(bytes, pos).value.1;
    val, mid := Decode(bytes, start, opts, depth + 1).value.0, Decode(bytes, start, opts, depth + 1).value.1;
  }

  lemma EntriesEnd(bytes: seq<Byte>, pos: nat, opts: DecodeOpt, depth: nat, acc: seq<EntryRef>)
    requires pos < |bytes| && bytes[pos] == BEN_END
    ensures DecodeEntries(bytes, pos, opts, depth, acc) == Ok((acc, pos + 1))
  {}

  lemma {:induction false} LocalEntries(a: seq<Byte>, p: nat, b: seq<Byte>, q: nat, opts: DecodeOpt, d: nat, e: nat,
                                        acc: seq<EntryRef>, es: seq<EntryRef>, next: nat)
    requires p <= |a| && DecodeEntries(a, p, opts, d, acc) == Ok((es, next)) && e <= d
    requires SameBytes(a, p, b, q, next - p)
    ensures DecodeEntries(b, q, opts, e, acc) == Ok((es, q + (next - p)))
    decreases |a| - p, 1
  {
    hide SameBytes, Decode, DecodeBytes, OutOfOrder, Insert, RefKeys, DecodeEntries;
    SameAt(a, p, b, q, next - p, 0);
    if a[p] == BEN_END {
      EntriesEnd(a, p, opts, d, acc);
      EntriesEnd(b, q, opts, e, acc);
    } else {
      var key, start, val, mid := EntriesTurned(a, p, opts, d, acc);
      SameSub(a, p, b, q, next - p, 0, start - p);
      LocalBytes(a, p, b, q);
      SameSub(a, p, b, q, next - p, start - p, mid - start);
      LocalDecode(a, start, b, q + (start - p), opts, d + 1, e + 1);
      EntriesTurn(b, q, opts, e, acc, key, q + (start - p));
      SameSub(a, p, b, q, next - p, mid - p, next - mid);
      LocalEntries(a, mid, b, q + (mid - p), opts, d, e, Insert(acc, EntryRef(key, val)), es, next);
    }
  }

  /** Bytes after a value never change how it decodes. */
  lemma SuffixIrrelevant(bytes: seq<Byte>, suffix: seq<Byte>, pos: nat, opts: DecodeOpt, depth: nat)
    requires pos <= |bytes| && Decode(bytes, pos, opts, depth).Ok?
    ensures Decode(bytes + suffix, pos, opts, depth) == Decode(bytes, pos, opts, depth)
  {
    var next := Decode(bytes, pos, opts, depth).value.1;
    assert (bytes + suffix)[pos..next] == bytes[pos..next];
    LocalDecode(bytes, pos, bytes + suffix, pos, opts, depth, depth);
  }

  /** An accepted input is accepted with more bytes after it if and only if the whole input need not be consumed. */
  lemma TrailingIgnoredIff(bytes: seq<Byte>, suffix: seq<Byte>, opts: DecodeOpt)
    requires DecodeAll(bytes, opts).Ok? && DecodeAll(bytes, opts).value.buf == bytes
    ensures DecodeAll(bytes + suffix, opts).Ok? <==> suffix == [] || !opts.enforceFullDecode
    ensures DecodeAll(bytes + suffix, opts).Ok? ==> DecodeAll(bytes + suffix, opts) == DecodeAll(bytes, opts)
  {
    hide Decode, SelfDecoding;
    Spans(bytes, 0, opts, 0);
    SuffixIrrelevant(bytes, suffix, 0, opts, 0);
  }

  /** Among fully consumed inputs none is a proper prefix of another. */
  lemma PrefixFree(a: seq<Byte>, b: seq<Byte>, opts: DecodeOpt)
    requires opts.enforceFullDecode && DecodeAll(a, opts).Ok? && DecodeAll(b, opts).Ok? && a <= b
    ensures a == b
  {
    assert b == a + b[|a|..];
    SuffixIrrelevant(a, b[|a|..], 0, opts, 0);
  }

  // ----- Buffers

  /** On its own, the buffer of `r` decodes to `r`, and so does every part inside it. */
  ghost predicate SelfDecoding(r: BencodeRef, opts: DecodeOpt) {
    && Decode(r.buf, 0, opts, 0) == Ok((r, |r.buf|))
    && match r
       case IntRef(_, _) => true
       case BytesRef(b, buf) => SliceOf(b, buf, 0, |buf|)
       case ListRef(items, buf) =>
         forall i :: 0 <= i < |items| ==> SliceOf(items[i].buf, buf, 0, |buf|) && SelfDecoding(items[i], opts)
       case DictRef(es, buf) =>
         forall i :: 0 <= i < |es| ==>
           SliceOf(es[i].key, buf, 0, |buf|) && SliceOf(es[i].val.buf, buf, 0, |buf|) && SelfDecoding(es[i].val, opts)
  }

  /** An item read between `lo` and `hi`. */
  ghost predicate ItemSpan(r: BencodeRef, opts: DecodeOpt, bytes: seq<Byte>, lo: nat, hi: nat) {
    SliceOf(r.buf, bytes, lo, hi) && SelfDecoding(r, opts)
  }

  ghost predicate EntrySpan(e: EntryRef, opts: DecodeOpt, bytes: seq<Byte>, lo: nat, hi: nat) {
    SliceOf(e.key, bytes, lo, hi) && ItemSpan(e.val, opts, bytes, lo, hi)
  }

  /** Every decoded value carries exactly the bytes it was read from, all the way down. */
  lemma {:induction false} Spans(bytes: seq<Byte>, pos: nat, opts: DecodeOpt, depth: nat)
    requires pos <= |bytes| && Decode(bytes, pos, opts, depth).Ok?
    ensures var (r, next) := Decode(bytes, pos, opts, depth).value;
            pos < next <= |bytes| && r.buf == bytes[pos..next] && SelfDecoding(r, opts)
    decreases |bytes| - pos, 0
  {
    hide DecodeInt, DecodeBytes, DecodeItems, DecodeEntries, Reads, SliceOf;
    var (r, next) := Decode(bytes, pos, opts, depth).value;
    assert r.buf[0..] == r.buf;
    LocalDecode(bytes, pos, r.buf, 0, opts, depth, 0);
    match r
    case IntRef(_, _) =>
    case BytesRef(b, _) =>
      KeySpan(bytes, pos);
      SliceOfPart(b, bytes, pos, next);
    case ListRef(items, _) =>
      SpansItems(bytes, pos + 1, pos + 1, opts, depth, []);
      forall i | 0 <= i < |items| ensures SliceOf(items[i].buf, r.buf, 0, |r.buf|) && SelfDecoding(items[i], opts) {
        SliceWidens(items[i].buf, bytes, pos + 1, next, pos, next);
        SliceOfPart(items[i].buf, bytes, pos, next);
      }
    case DictRef(es, _) =>
      SpansEntries(bytes, pos + 1, pos + 1, opts, depth, []);
      forall i | 0 <= i < |es|
        ensures SliceOf(es[i].key, r.buf, 0, |r.buf|) && SliceOf(es[i].val.buf, r.buf, 0, |r.buf|) && SelfDecoding(es[i].val, opts)
      {
        assert EntrySpan(es[i], opts, bytes, pos + 1, next);
        SliceWidens(es[i].key, bytes, pos + 1, next, pos, next);
        SliceOfPart(es[i].key, bytes, pos, next);
        SliceWidens(es[i].val.buf, bytes, pos + 1, next, pos, next);
        SliceOfPart(es[i].val.buf, bytes, pos, next);
      }
  }

  lemma KeySpan(bytes: seq<Byte>, pos: nat)
    requires pos <= |bytes| && DecodeBytes(bytes, pos).Ok?
    ensures SliceOf(DecodeBytes(bytes, pos).value.0, bytes, pos, DecodeBytes(bytes, pos).value.1)
  {
    hide DecodeInt;
    var (_, start) := DecodeInt(bytes, pos, BYTE_LEN_END).value;
    assert Reads(bytes, start, DecodeBytes(bytes, pos).value.0);
  }

  lemma {:induction false} SpansItems(bytes: seq<Byte>, lo: nat, pos: nat, opts: DecodeOpt, depth: nat, acc: seq<BencodeRef>)
    requires lo <= pos <= |bytes| && DecodeItems(bytes, pos, opts, depth, acc).Ok?
    requires forall i :: 0 <= i < |acc| ==> ItemSpan(acc[i], opts, bytes, lo, pos)
    ensures var (items, next) := DecodeItems(bytes, pos, opts, depth, acc).value;
            forall i :: 0 <= i < |items| ==> ItemSpan(items[i], opts, bytes, lo, next)
    decreases |bytes| - pos, 1
  {
    hide Decode, SelfDecoding, Reads;
    if bytes[pos] == BEN_END {
      forall i | 0 <= i < |acc| ensures ItemSpan(acc[i], opts, bytes, lo, pos + 1) {
        SliceWidens(acc[i].buf, bytes, lo, pos, lo, pos + 1);
      }
    } else {
      var (item, next) := Decode(bytes, pos, opts, depth + 1).value;
      Spans(bytes, pos, opts, depth + 1);
      SpanHere(bytes, lo, pos, next);
      forall i | 0 <= i < |acc + [item]| ensures ItemSpan((acc + [item])[i], opts, bytes, lo, next) {
        if i < |acc| {
          SliceWidens(acc[i].buf, bytes, lo, pos, lo, next);
        }
      }
      SpansItems(bytes, lo, next, opts, depth, acc + [item]);
    }
  }

  lemma SpanHere(bytes: seq<Byte>, lo: nat, pos: nat, next: nat)
    requires lo <= pos <= next <= |bytes|
    ensures SliceOf(bytes[pos..next], bytes, lo, next)
  {
    assert Reads(bytes, pos, bytes[pos..next]);
  }

  lemma {:induction false} SpansEntries(bytes: seq<Byte>, lo: nat, pos: nat, opts: DecodeOpt, depth: nat, acc: seq<EntryRef>)
    requires lo <= pos <= |bytes| && DecodeEntries(bytes, pos, opts, depth, acc).Ok?
    requires forall e :: e in acc ==> EntrySpan(e, opts, bytes, lo, pos)
    ensures var (es, next) := DecodeEntries(bytes, pos, opts, depth, acc).value;
            forall e :: e in es ==> EntrySpan(e, opts, bytes, lo, next)
    decreases |bytes| - pos, 1
  {
    hide Decode, DecodeBytes, SelfDecoding, Reads, Insert, OutOfOrder, RefKeys;
    if bytes[pos] == BEN_END {
      EntriesWiden(acc, opts, bytes, lo, pos, pos + 1);
    } else {
      var (key, start) := DecodeBytes(bytes, pos).value;
      var (val, next) := Decode(bytes, start, opts, depth + 1).value;
      KeySpan(bytes, pos);
      SliceWidens(key, bytes, pos, start, lo, next);
      Spans(bytes, start, opts, depth + 1);
      SpanHere(bytes, lo, start, next);
      EntriesWiden(acc, opts, bytes, lo, pos, next);
      var e := EntryRef(key, val);
      forall x | x in Insert(acc, e) ensures EntrySpan(x, opts, bytes, lo, next) {
        InsertIn(acc, e, x);
      }
      SpansEntries(bytes, lo, next, opts, depth, Insert(acc, e));
    }
  }

  lemma EntriesWiden(acc: seq<EntryRef>, opts: DecodeOpt, bytes: seq<Byte>, lo: nat, hi: nat, hi': nat)
    requires hi <= hi' && forall e :: e in acc ==> EntrySpan(e, opts, bytes, lo, hi)
    ensures forall e :: e in acc ==> EntrySpan(e, opts, bytes, lo, hi')
  {
    hide SelfDecoding, Reads;
    forall e | e in acc ensures EntrySpan(e, opts, bytes, lo, hi') {
      SliceWidens(e.key, bytes, lo, hi, lo, hi');
      SliceWidens(e.val.buf, bytes, lo, hi, lo, hi');
    }
  }
}
