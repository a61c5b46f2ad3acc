/** The two key comparators an onion_dict can carry: `strcmp` and `strcasecmp` (C locale). */
module DictKeys {

  datatype Order = CaseSensitive | CaseInsensitive

  function Fold(o: Order, c: char): char {
    if o == CaseInsensitive && 'A' <= c <= 'Z' then c + 32 as char else c
  }

  /** The key as the comparator sees it; two keys compare equal exactly when these agree. */
  function Canon(o: Order, key: string): string {
    if key == [] then [] else [Fold(o, key[0])] + Canon(o, key[1..])
  }

  function Compare(o: Order, a: string, b: string): (r: int)
    ensures -1 <= r <= 1
  {
    if a == [] then (if b == [] then 0 else -1)
    else if b == [] then 1
    else if Fold(o, a[0]) < Fold(o, b[0]) then -1
    else if Fold(o, a[0]) > Fold(o, b[0]) then 1
    else Compare(o, a[1..], b[1..])
  }

  lemma {:induction false} CompareFlips(o: Order, a: string, b: string)
    ensures Compare(o, b, a) == -Compare(o, a, b)
  {
    if a == [] || b == [] {
    } else {
      CompareFlips(o, a[1..], b[1..]);
    }
  }

  lemma {:induction false} CompareTransitive(o: Order, a: string, b: string, c: string)
    requires Compare(o, a, b) <= 0 && Compare(o, b, c) <= 0
    ensures Compare(o, a, c) <= 0
    ensures Compare(o, a, b) < 0 || Compare(o, b, c) < 0 ==> Compare(o, a, c) < 0
  {
    if a == [] || b == [] || c == [] || !(Fold(o, a[0]) == Fold(o, b[0]) == Fold(o, c[0])) {
    } else {
      CompareTransitive(o, a[1..], b[1..], c[1..]);
    }
  }

  lemma {:induction false} CompareZeroIsCanon(o: Order, a: string, b: string)
    ensures Compare(o, a, b) == 0 <==> Canon(o, a) == Canon(o, b)
  {
    if a == [] || b == [] {
    } else {
      CompareZeroIsCanon(o, a[1..], b[1..]);
      var ca, cb := Canon(o, a), Canon(o, b);
      assert ca[0] == Fold(o, a[0]) && cb[0] == Fold(o, b[0]);
      assert ca[1..] == Canon(o, a[1..]) && cb[1..] == Canon(o, b[1..]);
      assert ca == [ca[0]] + ca[1..] && cb == [cb[0]] + cb[1..];
    }
  }

  /** Under strcmp a key is its own canonical form. */
  lemma {:induction false} CanonExact(key: string)
    ensures Canon(CaseSensitive, key) == key
  {
    if key == [] {
    } else {
      CanonExact(key[1..]);
    }
  }
}
