/** The order in which `Reflect.ownKeys` lists the string-keyed own
    properties of an ordinary JavaScript object (OrdinaryOwnPropertyKeys,
    section 10.1.11.1 of ECMA-262): first every key that is an array
    index, in ascending numeric order, then every other string key in the
    order the properties were created. Symbol keys never occur here. */
module PropertyKeys {

  predicate IsDigit(c: char)
  {
    '0' <= c <= '9'
  }

  /** Numeric value of a decimal numeral (a non-digit counts as 0; the
      function is only applied to numerals). */
  function DecimalValue(s: string): nat
  {
    if s == [] then 0
    else
      var last := s[|s| - 1];
      10 * DecimalValue(s[..|s| - 1]) + (if IsDigit(last) then (last as int - '0' as int) else 0)
  }

  /** An array index: the canonical decimal form of an integer from 0 to
      2^32 - 2 ("0", "7", "404"; not "07", "-1", "4294967295"). */
  predicate IsArrayIndex(k: string)
  {
    && |k| >= 1
    && (forall i :: 0 <= i < |k| ==> IsDigit(k[i]))
    && (k[0] != '0' || |k| == 1)
    && DecimalValue(k) < 0xFFFF_FFFF
  }

  /** The array-index keys of `order`, in their creation order. */
  function IndexKeys(order: seq<string>): seq<string>
  {
    if order == [] then []
    else (if IsArrayIndex(order[0]) then [order[0]] else []) + IndexKeys(order[1..])
  }

  /** The other keys of `order`, in their creation order. */
  function NamedKeys(order: seq<string>): seq<string>
  {
    if order == [] then []
    else (if IsArrayIndex(order[0]) then [] else [order[0]]) + NamedKeys(order[1..])
  }

  ghost predicate Ascending(s: seq<string>)
  {
    forall i, j :: 0 <= i < j < |s| ==> DecimalValue(s[i]) <= DecimalValue(s[j])
  }

  /** Inserts `k` into `s` before the first key of larger or equal value. */
  function InsertByValue(k: string, s: seq<string>): seq<string>
  {
    if s == [] then [k]
    else if DecimalValue(k) <= DecimalValue(s[0]) then [k] + s
    else [s[0]] + InsertByValue(k, s[1..])
  }

  /** Array-index keys in ascending numeric order. */
  function SortByValue(s: seq<string>): seq<string>
  {
    if s == [] then [] else InsertByValue(s[0], SortByValue(s[1..]))
  }

  /** `Reflect.ownKeys(o)` for an object whose string-keyed properties were
      created in the order `order`. */
  function OwnKeys(order: seq<string>): seq<string>
  {
    SortByValue(IndexKeys(order)) + NamedKeys(order)
  }

  /** A head no larger than anything in an ascending tail keeps it
      ascending. */
  lemma AscendingCons(a: string, t: seq<string>)
    requires forall x <- t :: DecimalValue(a) <= DecimalValue(x)
    requires Ascending(t)
    ensures Ascending([a] + t)
  {
    var r := [a] + t;
    forall i, j | 0 <= i < j < |r|
      ensures DecimalValue(r[i]) <= DecimalValue(r[j])
    {
      assert r[j] == t[j - 1];
      assert r[j] in t;
      if i > 0 {
        assert r[i] == t[i - 1];
      }
    }
  }

  /** The head of an ascending sequence is no larger than anything after
      it, and its tail is ascending. */
  lemma AscendingUncons(s: seq<string>)
    requires s != [] && Ascending(s)
    ensures forall x <- s[1..] :: DecimalValue(s[0]) <= DecimalValue(x)
    ensures Ascending(s[1..])
  {
    var t := s[1..];
    forall x <- t
      ensures DecimalValue(s[0]) <= DecimalValue(x)
    {
      var j :| 0 <= j < |t| && t[j] == x;
      assert s[j + 1] == x;
    }
  }

  lemma {:induction false} InsertByValueSorted(k: string, s: seq<string>)
    requires Ascending(s)
    ensures multiset(InsertByValue(k, s)) == multiset(s) + multiset{k}
    ensures Ascending(InsertByValue(k, s))
    decreases |s|
  {
    if s == [] {
    } else if DecimalValue(k) <= DecimalValue(s[0]) {
      AscendingUncons(s);
      forall x <- s
        ensures DecimalValue(k) <= DecimalValue(x)
      {
        if x != s[0] {
          assert x in s[1..];
        }
      }
      AscendingCons(k, s);
    } else {
      var tail := s[1..];
      assert s == [s[0]] + tail;
      AscendingUncons(s);
      InsertByValueSorted(k, tail);
      var ins := InsertByValue(k, tail);
      forall x <- ins
        ensures DecimalValue(s[0]) <= DecimalValue(x)
      {
        assert x in multiset(tail) + multiset{k};
      }
      AscendingCons(s[0], ins);
    }
  }

  /** Sorting by value yields an ascending permutation of its input. */
  lemma {:induction false} SortByValueSorted(s: seq<string>)
    ensures multiset(SortByValue(s)) == multiset(s)
    ensures Ascending(SortByValue(s))
    decreases |s|
  {
    if s != [] {
      SortByValueSorted(s[1..]);
      InsertByValueSorted(s[0], SortByValue(s[1..]));
      assert s == [s[0]] + s[1..];
    }
  }

  /** Splitting keys into array indexes and the rest loses and invents
      nothing, and sorts each key into the right part. */
  lemma {:induction false} PartitionKeys(order: seq<string>)
    ensures multiset(IndexKeys(order)) + multiset(NamedKeys(order)) == multiset(order)
    ensures forall k <- IndexKeys(order) :: IsArrayIndex(k)
    ensures forall k <- NamedKeys(order) :: !IsArrayIndex(k)
    decreases |order|
  {
    if order != [] {
      PartitionKeys(order[1..]);
      assert order == [order[0]] + order[1..];
    }
  }

  /** `Reflect.ownKeys` lists every key exactly as often as it was created
      (a permutation of the creation order); the array indexes come first,
      in ascending numeric order, and the other keys follow in creation
      order. */
  lemma OwnKeysLayout(order: seq<string>)
    ensures multiset(OwnKeys(order)) == multiset(order)
    ensures |IndexKeys(order)| <= |OwnKeys(order)|
    ensures var keys, n := OwnKeys(order), |IndexKeys(order)|;
      && (forall i :: 0 <= i < |keys| ==> (IsArrayIndex(keys[i]) <==> i < n))
      && Ascending(keys[..n])
      && keys[n..] == NamedKeys(order)
  {
    PartitionKeys(order);
    SortByValueSorted(IndexKeys(order));
    var sorted := SortByValue(IndexKeys(order));
    var keys := OwnKeys(order);
    var n := |IndexKeys(order)|;
    assert |sorted| == n by {
      assert |multiset(sorted)| == |multiset(IndexKeys(order))|;
    }
    assert keys[..n] == sorted;
    assert keys[n..] == NamedKeys(order);
    forall i | 0 <= i < |keys|
      ensures IsArrayIndex(keys[i]) <==> i < n
    {
      if i < n {
        assert keys[i] == sorted[i];
        assert keys[i] in multiset(IndexKeys(order));
      } else {
        assert keys[i] == NamedKeys(order)[i - n];
      }
    }
  }

  lemma {:induction false} NoIndexKeys(order: seq<string>)
    requires forall k <- order :: !IsArrayIndex(k)
    ensures IndexKeys(order) == [] && NamedKeys(order) == order
    decreases |order|
  {
    if order != [] {
      NoIndexKeys(order[1..]);
      assert order == [order[0]] + order[1..];
    }
  }

  /** When no key is an array index, `Reflect.ownKeys` is exactly the
      creation order. */
  lemma OwnKeysCreationOrder(order: seq<string>)
    requires forall k <- order :: !IsArrayIndex(k)
    ensures OwnKeys(order) == order
  {
    NoIndexKeys(order);
    assert [] + order == order;
  }

  /** A single key is listed as itself, whatever its kind. */
  lemma OwnKeysSingle(k: string)
    ensures OwnKeys([k]) == [k]
  {
    assert [k][1..] == [];
    assert IndexKeys([]) == [] && NamedKeys([]) == [];
    if IsArrayIndex(k) {
      assert IndexKeys([k]) == [k] && NamedKeys([k]) == [];
      assert SortByValue([k]) == InsertByValue(k, []);
    } else {
      assert IndexKeys([k]) == [] && NamedKeys([k]) == [k];
    }
  }
}
