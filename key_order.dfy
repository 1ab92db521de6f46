/** The order the converter sorts records by: the identity key compared field by field
    (name, then phone, then address), each string compared character by character. The sort
    itself is the standard library's stable `sort_by`, modelled here by a stable insertion
    sort. */
module KeyOrder {
  import opened Records

  /** Lexicographic order on strings: the first differing character decides, and a proper
      prefix comes first. Comparing characters by code point is comparing their UTF-8
      encodings byte by byte, which is how Rust orders `String`s. */
  predicate StrLt(a: string, b: string)
    decreases |a|
  {
    if b == [] then false
    else if a == [] then true
    else if a[0] != b[0] then a[0] < b[0]
    else StrLt(a[1..], b[1..])
  }

  lemma {:induction false} StrLtIrreflexive(a: string)
    ensures !StrLt(a, a)
    decreases |a|
  {
    if a != [] {
      StrLtIrreflexive(a[1..]);
    }
  }

  lemma {:induction false} StrLtTransitive(a: string, b: string, c: string)
    requires StrLt(a, b) && StrLt(b, c)
    ensures StrLt(a, c)
    decreases |a|
  {
    if a != [] && a[0] == b[0] && b[0] == c[0] {
      StrLtTransitive(a[1..], b[1..], c[1..]);
    }
  }

  /** Any two different strings are ordered one way or the other. */
  lemma {:induction false} StrLtTotal(a: string, b: string)
    requires a != b
    ensures StrLt(a, b) || StrLt(b, a)
    decreases |a|
  {
    if a != [] && b != [] && a[0] == b[0] {
      assert a == [a[0]] + a[1..] && b == [b[0]] + b[1..];
      StrLtTotal(a[1..], b[1..]);
    }
  }

  lemma {:induction false} StrLtAsymmetric(a: string, b: string)
    requires StrLt(a, b)
    ensures !StrLt(b, a)
    decreases |a|
  {
    if a != [] && a[0] == b[0] {
      StrLtAsymmetric(a[1..], b[1..]);
    }
  }

  /** The tuple order on (name, phone, address). */
  predicate KeyLt(a: Key, b: Key)
  {
    || StrLt(a.name, b.name)
    || (a.name == b.name && StrLt(a.phone, b.phone))
    || (a.name == b.name && a.phone == b.phone && StrLt(a.address, b.address))
  }

  lemma KeyLtIrreflexive(a: Key)
    ensures !KeyLt(a, a)
  {
    StrLtIrreflexive(a.name);
    StrLtIrreflexive(a.phone);
    StrLtIrreflexive(a.address);
  }

  lemma KeyLtAsymmetric(a: Key, b: Key)
    requires KeyLt(a, b)
    ensures !KeyLt(b, a)
  {
    if StrLt(a.name, b.name) {
      StrLtAsymmetric(a.name, b.name);
      StrLtIrreflexive(a.name);
    } else if StrLt(a.phone, b.phone) {
      StrLtAsymmetric(a.phone, b.phone);
      StrLtIrreflexive(a.phone);
      StrLtIrreflexive(a.name);
    } else {
      StrLtAsymmetric(a.address, b.address);
      StrLtIrreflexive(a.phone);
      StrLtIrreflexive(a.name);
    }
  }

  lemma KeyLtTransitive(a: Key, b: Key, c: Key)
    requires KeyLt(a, b) && KeyLt(b, c)
    ensures KeyLt(a, c)
  {
    if StrLt(a.name, b.name) && StrLt(b.name, c.name) {
      StrLtTransitive(a.name, b.name, c.name);
    } else if a.name == b.name && b.name == c.name {
      if StrLt(a.phone, b.phone) && StrLt(b.phone, c.phone) {
        StrLtTransitive(a.phone, b.phone, c.phone);
      } else if a.phone == b.phone && b.phone == c.phone {
        StrLtTransitive(a.address, b.address, c.address);
      }
    }
  }

  lemma KeyLtTotal(a: Key, b: Key)
    requires a != b
    ensures KeyLt(a, b) || KeyLt(b, a)
  {
    if a.name != b.name {
      StrLtTotal(a.name, b.name);
    } else if a.phone != b.phone {
      StrLtTotal(a.phone, b.phone);
    } else {
      StrLtTotal(a.address, b.address);
    }
  }

  /** The rows whose key is `k`, in their order. */
  function RowsWithKey(rows: seq<ConvertedRow>, k: Key): (r: seq<ConvertedRow>)
    ensures |r| <= |rows|
  {
    if rows == [] then []
    else
      var last := rows[|rows| - 1];
      RowsWithKey(rows[..|rows| - 1], k) + if KeyOf(last) == k then [last] else []
  }

  /** How many rows have key `k`. */
  function CountKey(rows: seq<ConvertedRow>, k: Key): nat
  {
    |RowsWithKey(rows, k)|
  }

  lemma {:induction false} RowsWithKeyAppend(a: seq<ConvertedRow>, b: seq<ConvertedRow>, k: Key)
    ensures RowsWithKey(a + b, k) == RowsWithKey(a, k) + RowsWithKey(b, k)
    decreases |b|
  {
    if b != [] {
      var b' := b[..|b| - 1];
      RowsWithKeyAppend(a, b', k);
      assert (a + b)[..|a + b| - 1] == a + b';
      assert (a + b)[|a + b| - 1] == b[|b| - 1];
    } else {
      assert a + b == a;
    }
  }

  /** The rows of the key are exactly the rows that have that key. */
  lemma {:induction false} RowsWithKeyMembers(rows: seq<ConvertedRow>, k: Key)
    ensures forall r :: r in RowsWithKey(rows, k) <==> r in rows && KeyOf(r) == k
  {
    if rows != [] {
      RowsWithKeyMembers(rows[..|rows| - 1], k);
      assert rows == rows[..|rows| - 1] + [rows[|rows| - 1]];
    }
  }

  /** A key occurs in the rows exactly when one of them has it. */
  lemma CountKeyPositive(rows: seq<ConvertedRow>, k: Key)
    ensures CountKey(rows, k) > 0 <==> exists i :: 0 <= i < |rows| && KeyOf(rows[i]) == k
  {
    RowsWithKeyMembers(rows, k);
    if CountKey(rows, k) > 0 {
      var r := RowsWithKey(rows, k)[0];
      assert r in RowsWithKey(rows, k);
    }
    if exists i :: 0 <= i < |rows| && KeyOf(rows[i]) == k {
      var i :| 0 <= i < |rows| && KeyOf(rows[i]) == k;
      assert rows[i] in RowsWithKey(rows, k);
    }
  }

  /** Places `x` before the first row whose key is not smaller than its own, so that it
      goes after every row with a smaller key and before the rows with its own key. */
  function Insert(x: ConvertedRow, t: seq<ConvertedRow>): (r: seq<ConvertedRow>)
    ensures |r| == |t| + 1
    ensures r[0] == x || (t != [] && r[0] == t[0])
  {
    if t == [] then [x]
    else if !KeyLt(KeyOf(t[0]), KeyOf(x)) then [x] + t
    else [t[0]] + Insert(x, t[1..])
  }

  /** `rows.sort_by(|a, b| key(a).cmp(&key(b)))`: a stable sort on the identity key. */
  function SortByKey(rows: seq<ConvertedRow>): (r: seq<ConvertedRow>)
    ensures |r| == |rows|
  {
    if rows == [] then [] else Insert(rows[0], SortByKey(rows[1..]))
  }

  /** Each row's key is no smaller than the previous row's. */
  predicate Sorted(rows: seq<ConvertedRow>)
  {
    forall i :: 0 < i < |rows| ==> !KeyLt(KeyOf(rows[i]), KeyOf(rows[i - 1]))
  }

  lemma {:induction false} InsertSorted(x: ConvertedRow, t: seq<ConvertedRow>)
    requires Sorted(t)
    ensures Sorted(Insert(x, t))
    decreases |t|
  {
    if t != [] && KeyLt(KeyOf(t[0]), KeyOf(x)) {
      var rest := Insert(x, t[1..]);
      InsertSorted(x, t[1..]);
      KeyLtAsymmetric(KeyOf(t[0]), KeyOf(x));
      assert Insert(x, t) == [t[0]] + rest;
      forall i | 0 < i < |Insert(x, t)|
        ensures !KeyLt(KeyOf(Insert(x, t)[i]), KeyOf(Insert(x, t)[i - 1]))
      {
        if i > 1 {
          assert Insert(x, t)[i] == rest[i - 1] && Insert(x, t)[i - 1] == rest[i - 2];
        } else if rest[0] != x {
          assert |t| > 1 && rest[0] == t[1];
        }
      }
    }
  }

  /** The sort orders the rows by key. */
  lemma {:induction false} SortByKeySorted(rows: seq<ConvertedRow>)
    ensures Sorted(SortByKey(rows))
  {
    if rows != [] {
      SortByKeySorted(rows[1..]);
      InsertSorted(rows[0], SortByKey(rows[1..]));
    }
  }

  lemma {:induction false} InsertPermutes(x: ConvertedRow, t: seq<ConvertedRow>)
    ensures multiset(Insert(x, t)) == multiset{x} + multiset(t)
    decreases |t|
  {
    if t != [] && KeyLt(KeyOf(t[0]), KeyOf(x)) {
      InsertPermutes(x, t[1..]);
      assert t == [t[0]] + t[1..];
    }
  }

  /** The sort is a permutation of its input. */
  lemma {:induction false} SortByKeyPermutes(rows: seq<ConvertedRow>)
    ensures multiset(SortByKey(rows)) == multiset(rows)
  {
    if rows != [] {
      SortByKeyPermutes(rows[1..]);
      InsertPermutes(rows[0], SortByKey(rows[1..]));
      assert rows == [rows[0]] + rows[1..];
    }
  }

  lemma {:induction false} InsertKeepsKeyOrder(x: ConvertedRow, t: seq<ConvertedRow>, k: Key)
    ensures RowsWithKey(Insert(x, t), k) == RowsWithKey([x], k) + RowsWithKey(t, k)
    decreases |t|
  {
    if t == [] {
    } else if !KeyLt(KeyOf(t[0]), KeyOf(x)) {
      RowsWithKeyAppend([x], t, k);
    } else {
      InsertKeepsKeyOrder(x, t[1..], k);
      RowsWithKeyAppend([t[0]], Insert(x, t[1..]), k);
      RowsWithKeyAppend([t[0]], t[1..], k);
      assert [t[0]] + t[1..] == t;
      if KeyOf(t[0]) == k {
        KeyLtIrreflexive(k);
        assert RowsWithKey([x], k) == [];
      }
    }
  }

  /** The sort is stable: the rows of any one key keep their relative order. */
  lemma {:induction false} SortByKeyStable(rows: seq<ConvertedRow>, k: Key)
    ensures RowsWithKey(SortByKey(rows), k) == RowsWithKey(rows, k)
  {
    if rows != [] {
      SortByKeyStable(rows[1..], k);
      InsertKeepsKeyOrder(rows[0], SortByKey(rows[1..]), k);
      RowsWithKeyAppend([rows[0]], rows[1..], k);
      assert [rows[0]] + rows[1..] == rows;
    }
  }

  /** In a sorted sequence no later row has a smaller key than an earlier one. */
  lemma {:induction false} SortedAllPairs(rows: seq<ConvertedRow>, i: nat, j: nat)
    requires Sorted(rows) && i < j < |rows|
    ensures !KeyLt(KeyOf(rows[j]), KeyOf(rows[i]))
    decreases j - i
  {
    if j > i + 1 {
      SortedAllPairs(rows, i, j - 1);
      var a, b, c := KeyOf(rows[i]), KeyOf(rows[j - 1]), KeyOf(rows[j]);
      if KeyLt(c, a) {
        if b == a {
        } else {
          KeyLtTotal(a, b);
          KeyLtTransitive(c, a, b);
        }
      }
    }
  }

  /** In a sorted sequence the rows of one key are contiguous. */
  lemma EqualKeysAdjacent(rows: seq<ConvertedRow>, i: nat, j: nat, l: nat)
    requires Sorted(rows) && i < j < l < |rows|
    requires KeyOf(rows[i]) == KeyOf(rows[l])
    ensures KeyOf(rows[j]) == KeyOf(rows[i])
  {
    SortedAllPairs(rows, i, j);
    SortedAllPairs(rows, j, l);
    var a, b := KeyOf(rows[i]), KeyOf(rows[j]);
    if a != b {
      KeyLtTotal(a, b);
    }
  }
}
