/** The headers of a request as its dictionary holds them: an order kept among equal keys, and a lookup. */
module HeaderOrder {
  import opened Wrappers
  import opened CText
  import opened DictKeys
  import opened AATree
  import opened DictOrder
  import opened RequestParser

  /** The entries whose key compares equal to `key`. */
  function Under(o: Order, s: seq<Entry>, key: string): seq<Entry> {
    if s == [] then []
    else (if Compare(o, s[0].key, key) == 0 then [s[0]] else []) + Under(o, s[1..], key)
  }

  /** The headers so named, numbered from `from` on, as entries. */
  function Named(headers: seq<Header>, key: string): seq<Entry> {
    if headers == [] then []
    else
      var n := |headers| - 1;
      Named(headers[..n], key) +
      if Compare(CaseInsensitive, headers[n].key, key) == 0 then [HeaderEntry(headers[n], n)] else []
  }

  lemma {:induction false} UnderJoins(o: Order, a: seq<Entry>, b: seq<Entry>, key: string)
    ensures Under(o, a + b, key) == Under(o, a, key) + Under(o, b, key)
  {
    hide Compare;
    if a == [] {
      assert a + b == b;
    } else {
      UnderJoins(o, a[1..], b, key);
      var x := if Compare(o, a[0].key, key) == 0 then [a[0]] else [];
      assert (a + b)[1..] == a[1..] + b && (a + b)[0] == a[0];
      assert x + (Under(o, a[1..], key) + Under(o, b, key)) == x + Under(o, a[1..], key) + Under(o, b, key);
    }
  }

  lemma {:induction false} UnderNothing(o: Order, s: seq<Entry>, key: string)
    requires forall i :: 0 <= i < |s| ==> Compare(o, s[i].key, key) != 0
    ensures Under(o, s, key) == []
  {
    hide Compare;
    if s == [] {
    } else {
      UnderNothing(o, s[1..], key);
    }
  }

  lemma UnderOne(o: Order, e: Entry, key: string)
    ensures Under(o, [e], key) == if Compare(o, e.key, key) == 0 then [e] else []
  {
    hide Compare;
    assert [e][1..] == [];
  }

  /** A stable insertion puts the new entry last among its equals. */
  lemma UnderInserted(o: Order, s: seq<Entry>, e: Entry, key: string)
    requires Sorted(o, s)
    ensures Under(o, InsertedAt(s, CountLe(o, s, e.key), e), key) == Under(o, s, key) + Under(o, [e], key)
  {
    hide Compare, CountLe, Sorted;
    var n := CountLe(o, s, e.key);
    var a, b := s[..n], s[n..];
    assert s == a + b;
    UnderJoins(o, a, b, key);
    UnderJoins(o, a + [e], b, key);
    UnderJoins(o, a, [e], key);
    UnderOne(o, e, key);
    if Compare(o, e.key, key) == 0 {
      CountLeSplits(o, s, e.key);
      forall i | 0 <= i < |b| ensures Compare(o, b[i].key, key) != 0 {
        assert b[i] == s[n + i] && Compare(o, s[n + i].key, e.key) > 0;
        CompareFlips(o, e.key, key);
        if Compare(o, b[i].key, key) == 0 {
          CompareTransitive(o, b[i].key, key, e.key);
        }
      }
      UnderNothing(o, b, key);
    }
  }

  /** Headers of the same name stay in the order they came in. */
  lemma {:induction false} HeadersKeepOrder(headers: seq<Header>, key: string)
    ensures Sorted(CaseInsensitive, InOrder(HeaderDict(headers)))
    ensures Under(CaseInsensitive, InOrder(HeaderDict(headers)), key) == Named(headers, key)
  {
    hide Compare, CountLe, Add, InOrder, Find, InsertedAt, Sorted;
    if headers == [] {
      EmptyIsSorted(CaseInsensitive);
    } else {
      var n := |headers| - 1;
      var t, e := HeaderDict(headers[..n]), HeaderEntry(headers[n], n);
      HeadersKeepOrder(headers[..n], key);
      AddKeepsOrder(CaseInsensitive, t, e);
      AddInOrder(CaseInsensitive, t, e);
      UnderInserted(CaseInsensitive, InOrder(t), e, key);
      UnderOne(CaseInsensitive, e, key);
    }
  }

  lemma EmptyIsSorted(o: Order)
    ensures InOrder(Nil) == [] && Sorted(o, InOrder(Nil)) && forall key :: Under(o, InOrder(Nil), key) == []
  {
  }

  /**
   A header is found exactly when one of that name was sent, whatever its case, and its value is
   one that was sent.
   */
  lemma GetHeaderFinds(headers: seq<Header>, key: string)
    ensures GetHeader(headers, key).None? <==> Named(headers, key) == []
    ensures var r := GetHeader(headers, key);
      r.Some? ==>
        exists i :: 0 <= i < |headers| &&
          (headers[i].value == r.value && Compare(CaseInsensitive, headers[i].key, key) == 0)
  {
    hide Compare, Find, InOrder, Sorted;
    var s := InOrder(HeaderDict(headers));
    var f := Find(CaseInsensitive, HeaderDict(headers), key);
    HeadersKeepOrder(headers, key);
    FindCorrect(CaseInsensitive, HeaderDict(headers), key);
    if f.Some? {
      UnderHolds(CaseInsensitive, s, key, f.value);
      var i := NamedAre(headers, key, s[f.value]);
    } else {
      UnderNothing(CaseInsensitive, s, key);
    }
  }

  lemma {:induction false} UnderHolds(o: Order, s: seq<Entry>, key: string, i: nat)
    requires i < |s| && Compare(o, s[i].key, key) == 0
    ensures s[i] in Under(o, s, key)
  {
    hide Compare;
    if i == 0 {
    } else {
      UnderHolds(o, s[1..], key, i - 1);
    }
  }

  lemma {:induction false} NamedAre(headers: seq<Header>, key: string, e: Entry) returns (i: nat)
    requires e in Named(headers, key)
    ensures i < |headers| && e == HeaderEntry(headers[i], i) && Compare(CaseInsensitive, headers[i].key, key) == 0
  {
    hide Compare;
    var n := |headers| - 1;
    if e in Named(headers[..n], key) {
      i := NamedAre(headers[..n], key, e);
    } else {
      i := n;
    }
  }
}
