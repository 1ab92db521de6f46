/** Duplicate detection and the whole conversion of `read_and_convert_with_mapping`: rows
    converted, sorted by identity key, keys counted, and every key that occurs at least
    twice given a group id, allocated 1, 2, 3, ... in the order the walk over the sorted rows
    first meets the key. */
module Grouping {
  import opened Cells
  import opened Records
  import opened KeyOrder

  /** The `key_count` loop: how many rows carry each key. */
  method CountKeys(rows: seq<ConvertedRow>) returns (counts: map<Key, nat>)
    ensures forall k :: k in counts <==> CountKey(rows, k) > 0
    ensures forall k :: k in counts ==> counts[k] == CountKey(rows, k)
  {
    counts := map[];
    for i := 0 to |rows|
      invariant forall k :: k in counts <==> CountKey(rows[..i], k) > 0
      invariant forall k :: k in counts ==> counts[k] == CountKey(rows[..i], k)
    {
      var key := KeyOf(rows[i]);
      assert rows[..i + 1][..i] == rows[..i];
      counts := counts[key := (if key in counts then counts[key] else 0) + 1];
    }
    assert rows[..|rows|] == rows;
  }

  /** The keys that occur at least twice in `all`, in the order a walk over `rows` first
      meets them. */
  function DupKeys(rows: seq<ConvertedRow>, all: seq<ConvertedRow>): seq<Key>
  {
    if rows == [] then []
    else
      var d := DupKeys(rows[..|rows| - 1], all);
      var k := KeyOf(rows[|rows| - 1]);
      if CountKey(all, k) >= 2 && k !in d then d + [k] else d
  }

  /** Position of `k` in `d`: its first occurrence. */
  function IndexOf(d: seq<Key>, k: Key): (i: nat)
    requires k in d
    ensures i < |d| && d[i] == k && k !in d[..i]
  {
    if d[0] == k then 0 else 1 + IndexOf(d[1..], k)
  }

  /** The group id of key `k`: its position among the duplicated keys, counted from 1, or 0
      for a key that is not duplicated. */
  function GroupIdOf(all: seq<ConvertedRow>, k: Key): nat
  {
    var d := DupKeys(all, all);
    if k in d then IndexOf(d, k) + 1 else 0
  }

  /** Row `i` after the group-id walk: its id is set when its key occurs at least twice and
      left alone otherwise. */
  function Tagged(all: seq<ConvertedRow>, i: nat): ConvertedRow
    requires i < |all|
  {
    var k := KeyOf(all[i]);
    if CountKey(all, k) >= 2 then all[i].(groupId := GroupIdOf(all, k)) else all[i]
  }

  /** The sum of the counts of the keys in `d`. */
  function SumCounts(d: seq<Key>, all: seq<ConvertedRow>): nat
  {
    if d == [] then 0 else SumCounts(d[..|d| - 1], all) + CountKey(all, d[|d| - 1])
  }

  /** `duplicate_count`: the counts of all duplicated keys added up. */
  function DuplicateCount(all: seq<ConvertedRow>): nat
  {
    SumCounts(DupKeys(all, all), all)
  }

  ghost predicate GroupMapMatches(groupMap: map<Key, nat>, d: seq<Key>)
  {
    && (forall k :: k in groupMap <==> k in d)
    && (forall k :: k in groupMap ==> k in d && groupMap[k] == IndexOf(d, k) + 1)
  }

  lemma {:induction false} IndexOfAppend(d: seq<Key>, k: Key, j: Key)
    requires j in d
    ensures IndexOf(d + [k], j) == IndexOf(d, j)
  {
    if d[0] != j {
      assert (d + [k])[1..] == d[1..] + [k];
      IndexOfAppend(d[1..], k, j);
    }
  }

  lemma IndexOfLast(d: seq<Key>, k: Key)
    requires k !in d
    ensures IndexOf(d + [k], k) == |d|
  {
  }

  /** Walking further only appends duplicated keys. */
  lemma {:induction false} DupKeysPrefix(all: seq<ConvertedRow>, i: nat, j: nat)
    requires i <= j <= |all|
    ensures DupKeys(all[..i], all) <= DupKeys(all[..j], all)
    decreases j - i
  {
    if i < j {
      DupKeysPrefix(all, i, j - 1);
      assert all[..j][..j - 1] == all[..j - 1];
    }
  }

  lemma {:induction false} IndexOfInPrefix(d: seq<Key>, e: seq<Key>, k: Key)
    requires d <= e && k in d
    ensures IndexOf(e, k) == IndexOf(d, k)
  {
    if d[0] != k {
      IndexOfInPrefix(d[1..], e[1..], k);
    }
  }

  /** A key is among the duplicated keys met so far exactly when the walk has met it and it
      occurs at least twice overall; and no key is listed twice. */
  lemma {:induction false} DupKeysMembers(rows: seq<ConvertedRow>, all: seq<ConvertedRow>)
    ensures forall k :: k in DupKeys(rows, all) <==> CountKey(rows, k) > 0 && CountKey(all, k) >= 2
    ensures forall i, j :: 0 <= i < j < |DupKeys(rows, all)| ==> DupKeys(rows, all)[i] != DupKeys(rows, all)[j]
  {
    if rows != [] {
      DupKeysMembers(rows[..|rows| - 1], all);
    }
  }

  lemma SumCountsAppend(d: seq<Key>, k: Key, all: seq<ConvertedRow>)
    ensures SumCounts(d + [k], all) == SumCounts(d, all) + CountKey(all, k)
  {
    assert (d + [k])[..|d|] == d;
  }

  /** One step of the walk: row `i` appends its key when the key is duplicated and new. */
  lemma DupKeysStep(rows: seq<ConvertedRow>, i: nat)
    requires i < |rows|
    ensures var d := DupKeys(rows[..i], rows); var k := KeyOf(rows[i]);
      DupKeys(rows[..i + 1], rows) == if CountKey(rows, k) >= 2 && k !in d then d + [k] else d
    ensures CountKey(rows, KeyOf(rows[i])) > 0
  {
    assert rows[..i + 1][..i] == rows[..i];
    CountKeyPositive(rows, KeyOf(rows[i]));
  }

  lemma GroupMapStep(groupMap: map<Key, nat>, d: seq<Key>, k: Key)
    requires GroupMapMatches(groupMap, d) && k !in d
    ensures GroupMapMatches(groupMap[k := |d| + 1], d + [k])
  {
    IndexOfLast(d, k);
    forall j | j in d ensures IndexOf(d + [k], j) == IndexOf(d, j) {
      IndexOfAppend(d, k, j);
    }
  }

  /** The id of a duplicated key is fixed as soon as the walk first meets it. */
  lemma GroupIdAt(rows: seq<ConvertedRow>, i: nat)
    requires i < |rows| && CountKey(rows, KeyOf(rows[i])) >= 2
    ensures KeyOf(rows[i]) in DupKeys(rows[..i + 1], rows)
    ensures GroupIdOf(rows, KeyOf(rows[i])) == IndexOf(DupKeys(rows[..i + 1], rows), KeyOf(rows[i])) + 1
  {
    var k := KeyOf(rows[i]);
    DupKeysStep(rows, i);
    DupKeysPrefix(rows, i + 1, |rows|);
    assert rows[..|rows|] == rows;
    IndexOfInPrefix(DupKeys(rows[..i + 1], rows), DupKeys(rows, rows), k);
  }

  /** The first `n` rows after the group-id walk. */
  function TaggedPrefix(all: seq<ConvertedRow>, n: nat): (r: seq<ConvertedRow>)
    requires n <= |all|
    ensures |r| == n
  {
    if n == 0 then [] else TaggedPrefix(all, n - 1) + [Tagged(all, n - 1)]
  }

  lemma {:induction false} TaggedPrefixAt(all: seq<ConvertedRow>, n: nat)
    requires n <= |all|
    ensures forall j :: 0 <= j < n ==> TaggedPrefix(all, n)[j] == Tagged(all, j)
  {
    if n > 0 {
      TaggedPrefixAt(all, n - 1);
    }
  }

  /** A step of the walk over a row whose key occurs once. */
  lemma StepSingle(rows: seq<ConvertedRow>, i: nat, dups: seq<Key>, k: Key)
    requires i < |rows| && dups == DupKeys(rows[..i], rows) && k == KeyOf(rows[i])
    requires CountKey(rows, k) < 2
    ensures DupKeys(rows[..i + 1], rows) == dups
    ensures TaggedPrefix(rows, i + 1) == TaggedPrefix(rows, i) + [rows[i]]
  {
    DupKeysStep(rows, i);
  }

  /** A step of the walk over a duplicated key met before. */
  lemma StepKnown(rows: seq<ConvertedRow>, i: nat, dups: seq<Key>, k: Key)
    requires i < |rows| && dups == DupKeys(rows[..i], rows) && k == KeyOf(rows[i])
    requires CountKey(rows, k) >= 2 && k in dups
    ensures DupKeys(rows[..i + 1], rows) == dups
    ensures TaggedPrefix(rows, i + 1) == TaggedPrefix(rows, i) + [rows[i].(groupId := IndexOf(dups, k) + 1)]
  {
    DupKeysStep(rows, i);
    GroupIdAt(rows, i);
    assert GroupIdOf(rows, k) == IndexOf(dups, k) + 1;
  }

  /** A step of the walk over a duplicated key met for the first time. */
  lemma StepNew(rows: seq<ConvertedRow>, i: nat, dups: seq<Key>, k: Key)
    requires i < |rows| && dups == DupKeys(rows[..i], rows) && k == KeyOf(rows[i])
    requires CountKey(rows, k) >= 2 && k !in dups
    ensures DupKeys(rows[..i + 1], rows) == dups + [k]
    ensures TaggedPrefix(rows, i + 1) == TaggedPrefix(rows, i) + [rows[i].(groupId := |dups| + 1)]
  {
    DupKeysStep(rows, i);
    GroupIdAt(rows, i);
    IndexOfLast(dups, k);
  }

  /** The state of the group-id walk after the first `n` rows: the rows so far, the ids
      handed out, the next id and the running duplicate count. */
  datatype Walk = Walk(grouped: seq<ConvertedRow>, groupMap: map<Key, nat>, nextGroupId: nat, duplicateCount: nat)

  ghost function WalkTo(rows: seq<ConvertedRow>, n: nat): Walk
    requires n <= |rows|
  {
    if n == 0 then Walk([], map[], 1, 0)
    else
      var w := WalkTo(rows, n - 1);
      var row := rows[n - 1];
      var k := KeyOf(row);
      var count := CountKey(rows, k);
      if count < 2 then w.(grouped := w.grouped + [row])
      else if k in w.groupMap then w.(grouped := w.grouped + [row.(groupId := w.groupMap[k])])
      else Walk(w.grouped + [row.(groupId := w.nextGroupId)], w.groupMap[k := w.nextGroupId],
                w.nextGroupId + 1, w.duplicateCount + count)
  }

  /** `w` is the state of the walk after the first `n` rows: the rows so far tagged as
      `Tagged` says, the ids of the duplicated keys met so far, and their counts added up. */
  ghost predicate WalkAgrees(rows: seq<ConvertedRow>, n: nat, w: Walk)
    requires n <= |rows|
  {
    var dups := DupKeys(rows[..n], rows);
    && w.grouped == TaggedPrefix(rows, n)
    && GroupMapMatches(w.groupMap, dups)
    && w.nextGroupId == |dups| + 1
    && w.duplicateCount == SumCounts(dups, rows)
  }

  lemma WalkSingle(rows: seq<ConvertedRow>, i: nat, w: Walk)
    requires i < |rows| && WalkAgrees(rows, i, w) && CountKey(rows, KeyOf(rows[i])) < 2
    ensures WalkAgrees(rows, i + 1, w.(grouped := w.grouped + [rows[i]]))
  {
    StepSingle(rows, i, DupKeys(rows[..i], rows), KeyOf(rows[i]));
  }

  lemma WalkKnown(rows: seq<ConvertedRow>, i: nat, w: Walk)
    requires i < |rows| && WalkAgrees(rows, i, w)
    requires CountKey(rows, KeyOf(rows[i])) >= 2 && KeyOf(rows[i]) in w.groupMap
    ensures WalkAgrees(rows, i + 1, w.(grouped := w.grouped + [rows[i].(groupId := w.groupMap[KeyOf(rows[i])])]))
  {
    var dups := DupKeys(rows[..i], rows);
    var k := KeyOf(rows[i]);
    assert k in dups && w.groupMap[k] == IndexOf(dups, k) + 1;
    StepKnown(rows, i, dups, k);
  }

  lemma WalkNew(rows: seq<ConvertedRow>, i: nat, w: Walk)
    requires i < |rows| && WalkAgrees(rows, i, w)
    requires CountKey(rows, KeyOf(rows[i])) >= 2 && KeyOf(rows[i]) !in w.groupMap
    ensures var k := KeyOf(rows[i]);
      WalkAgrees(rows, i + 1, Walk(w.grouped + [rows[i].(groupId := w.nextGroupId)], w.groupMap[k := w.nextGroupId],
                                   w.nextGroupId + 1, w.duplicateCount + CountKey(rows, k)))
  {
    var dups := DupKeys(rows[..i], rows);
    var k := KeyOf(rows[i]);
    StepNew(rows, i, dups, k);
    GroupMapStep(w.groupMap, dups, k);
    SumCountsAppend(dups, k, rows);
  }

  /** After `n` rows the walk has tagged them as `Tagged` says, handed out the ids of the
      duplicated keys met so far, and added up their counts. */
  lemma {:induction false} WalkMeaning(rows: seq<ConvertedRow>, n: nat)
    requires n <= |rows|
    ensures WalkAgrees(rows, n, WalkTo(rows, n))
  {
    if n > 0 {
      var i := n - 1;
      WalkMeaning(rows, i);
      var w := WalkTo(rows, i);
      var k := KeyOf(rows[i]);
      if CountKey(rows, k) < 2 {
        WalkSingle(rows, i, w);
      } else if k in w.groupMap {
        WalkKnown(rows, i, w);
      } else {
        WalkNew(rows, i, w);
      }
    }
  }

  /** The completed walk has tagged every row as `Tagged` says and counted every row whose
      key is duplicated. */
  lemma WalkComplete(rows: seq<ConvertedRow>)
    ensures |WalkTo(rows, |rows|).grouped| == |rows|
    ensures forall i :: 0 <= i < |rows| ==> WalkTo(rows, |rows|).grouped[i] == Tagged(rows, i)
    ensures WalkTo(rows, |rows|).duplicateCount == DuplicateCount(rows)
  {
    WalkMeaning(rows, |rows|);
    assert rows[..|rows|] == rows;
    TaggedPrefixAt(rows, |rows|);
  }

  /** The group-id walk (`for row in &mut rows`): ids come from `group_map`, and a key seen
      for the first time takes `next_group_id` and adds its count to `duplicate_count`. */
  method AssignGroups(rows: seq<ConvertedRow>) returns (grouped: seq<ConvertedRow>, duplicateCount: nat)
    ensures |grouped| == |rows|
    ensures forall i :: 0 <= i < |rows| ==> grouped[i] == Tagged(rows, i)
    ensures duplicateCount == DuplicateCount(rows)
  {
    var keyCount := CountKeys(rows);
    var groupMap: map<Key, nat> := map[];
    var nextGroupId := 1;
    duplicateCount := 0;
    grouped := rows;
    for i := 0 to |rows|
      invariant |grouped| == |rows|
      invariant grouped[..i] == WalkTo(rows, i).grouped
      invariant grouped[i..] == rows[i..]
      invariant groupMap == WalkTo(rows, i).groupMap
      invariant nextGroupId == WalkTo(rows, i).nextGroupId
      invariant duplicateCount == WalkTo(rows, i).duplicateCount
    {
      var key := KeyOf(grouped[i]);
      assert grouped[i] == rows[i];
      CountKeyPositive(rows, key);
      if key in keyCount {
        var count := keyCount[key];
        if count >= 2 {
          var gid;
          if key in groupMap {
            gid := groupMap[key];
          } else {
            gid := nextGroupId;
            nextGroupId := nextGroupId + 1;
            duplicateCount := duplicateCount + count;
            groupMap := groupMap[key := gid];
          }
          grouped := grouped[i := grouped[i].(groupId := gid)];
        }
      }
      assert grouped[..i + 1] == grouped[..i] + [grouped[i]];
    }
    assert grouped == grouped[..|rows|];
    WalkComplete(rows);
  }

  /** Group ids read off `Tagged`, for rows that come from the conversion with id 0: a row
      gets an id exactly when its key occurs at least twice, the id lies in 1..m for the m
      duplicated keys, and nothing but the id changes. */
  lemma GroupIdRange(all: seq<ConvertedRow>, i: nat)
    requires i < |all| && all[i].groupId == 0
    ensures Tagged(all, i).groupId > 0 <==> CountKey(all, KeyOf(all[i])) >= 2
    ensures Tagged(all, i).groupId <= |DupKeys(all, all)|
    ensures Tagged(all, i).(groupId := 0) == all[i]
  {
    DupKeysMembers(all, all);
  }

  /** Rows with the same key get the same id. */
  lemma SameKeySameId(all: seq<ConvertedRow>, i: nat, j: nat)
    requires i < |all| && j < |all| && all[i].groupId == 0 && all[j].groupId == 0
    requires KeyOf(all[i]) == KeyOf(all[j])
    ensures Tagged(all, i).groupId == Tagged(all, j).groupId
  {
  }

  /** Rows with different keys never share a non-zero id. */
  lemma DistinctKeysDistinctIds(all: seq<ConvertedRow>, i: nat, j: nat)
    requires i < |all| && j < |all| && all[j].groupId == 0 && KeyOf(all[i]) != KeyOf(all[j])
    requires CountKey(all, KeyOf(all[i])) >= 2
    ensures Tagged(all, i).groupId != Tagged(all, j).groupId
  {
    DupKeysMembers(all, all);
  }

  lemma {:induction false} IndexOfDistinct(d: seq<Key>, n: nat)
    requires n < |d|
    requires forall i, j :: 0 <= i < j < |d| ==> d[i] != d[j]
    ensures IndexOf(d, d[n]) == n
  {
  }

  /** Every id from 1 to the number of duplicated keys is given to some row. */
  lemma IdsCoverRange(all: seq<ConvertedRow>, g: nat)
    requires 1 <= g <= |DupKeys(all, all)|
    ensures exists i :: 0 <= i < |all| && Tagged(all, i).groupId == g
  {
    var d := DupKeys(all, all);
    var k := d[g - 1];
    DupKeysMembers(all, all);
    IndexOfDistinct(d, g - 1);
    CountKeyPositive(all, k);
    var i :| 0 <= i < |all| && KeyOf(all[i]) == k;
    assert Tagged(all, i).groupId == g;
  }

  /** The walk hands out ids in the order it first reaches the keys: at the first row of a
      duplicated key, the id is one more than the number of duplicated keys met before. */
  lemma {:induction false} FirstReachId(all: seq<ConvertedRow>, i: nat)
    requires i < |all| && CountKey(all, KeyOf(all[i])) >= 2
    requires forall j :: 0 <= j < i ==> KeyOf(all[j]) != KeyOf(all[i])
    ensures DupKeys(all[..i + 1], all) == DupKeys(all[..i], all) + [KeyOf(all[i])]
    ensures GroupIdOf(all, KeyOf(all[i])) == |DupKeys(all[..i], all)| + 1
  {
    var k := KeyOf(all[i]);
    var dups := DupKeys(all[..i], all);
    DupKeysMembers(all[..i], all);
    assert forall j :: 0 <= j < i ==> KeyOf(all[..i][j]) != k;
    CountKeyPositive(all[..i], k);
    StepNew(all, i, dups, k);
    GroupIdAt(all, i);
    IndexOfLast(dups, k);
  }

  /** Of two keys first reached at rows `i < j`, the one reached first has the smaller id. */
  lemma FirstReachOrder(all: seq<ConvertedRow>, i: nat, j: nat)
    requires i < j < |all|
    requires CountKey(all, KeyOf(all[i])) >= 2 && CountKey(all, KeyOf(all[j])) >= 2
    requires forall l :: 0 <= l < i ==> KeyOf(all[l]) != KeyOf(all[i])
    requires forall l :: 0 <= l < j ==> KeyOf(all[l]) != KeyOf(all[j])
    ensures GroupIdOf(all, KeyOf(all[i])) < GroupIdOf(all, KeyOf(all[j]))
  {
    FirstReachId(all, i);
    FirstReachId(all, j);
    DupKeysPrefix(all, i + 1, j);
  }

  /** The number of rows of `rows` whose key satisfies `p`. */
  function CountWhere(rows: seq<ConvertedRow>, p: Key -> bool): (n: nat)
    ensures n <= |rows|
  {
    if rows == [] then 0
    else CountWhere(rows[..|rows| - 1], p) + (if p(KeyOf(rows[|rows| - 1])) then 1 else 0)
  }

  lemma {:induction false} CountWhereAddKey(rows: seq<ConvertedRow>, d: seq<Key>, k: Key)
    requires k !in d
    ensures CountWhere(rows, x => x in d + [k]) == CountWhere(rows, x => x in d) + CountKey(rows, k)
  {
    if rows != [] {
      CountWhereAddKey(rows[..|rows| - 1], d, k);
    }
  }

  lemma {:induction false} CountWhereSameKeys(rows: seq<ConvertedRow>, p: Key -> bool, q: Key -> bool)
    requires forall i :: 0 <= i < |rows| ==> p(KeyOf(rows[i])) == q(KeyOf(rows[i]))
    ensures CountWhere(rows, p) == CountWhere(rows, q)
  {
    if rows != [] {
      CountWhereSameKeys(rows[..|rows| - 1], p, q);
    }
  }

  lemma {:induction false} SumCountsIsRowsWithListedKeys(d: seq<Key>, all: seq<ConvertedRow>)
    requires forall i, j :: 0 <= i < j < |d| ==> d[i] != d[j]
    ensures SumCounts(d, all) == CountWhere(all, x => x in d)
  {
    if d == [] {
      CountWhereSameKeys(all, x => x in d, x => false);
      CountWhereNone(all);
    } else {
      var e := d[..|d| - 1];
      var k := d[|d| - 1];
      SumCountsIsRowsWithListedKeys(e, all);
      assert e + [k] == d;
      CountWhereAddKey(all, e, k);
    }
  }

  lemma {:induction false} CountWhereNone(rows: seq<ConvertedRow>)
    ensures CountWhere(rows, x => false) == 0
  {
    if rows != [] {
      CountWhereNone(rows[..|rows| - 1]);
    }
  }

  /** `duplicate_count` is the number of rows whose key occurs at least twice. */
  lemma DuplicateCountIsRowsInGroups(all: seq<ConvertedRow>)
    ensures DuplicateCount(all) == CountWhere(all, x => CountKey(all, x) >= 2)
  {
    var d := DupKeys(all, all);
    DupKeysMembers(all, all);
    SumCountsIsRowsWithListedKeys(d, all);
    forall i | 0 <= i < |all| ensures (KeyOf(all[i]) in d) == (CountKey(all, KeyOf(all[i])) >= 2) {
      CountKeyPositive(all, KeyOf(all[i]));
    }
    CountWhereSameKeys(all, x => x in d, x => CountKey(all, x) >= 2);
  }

  /** `has_duplicates` holds exactly when some key occurs at least twice. */
  lemma HasDuplicatesIff(all: seq<ConvertedRow>)
    ensures DuplicateCount(all) > 0 <==> exists i :: 0 <= i < |all| && CountKey(all, KeyOf(all[i])) >= 2
  {
    var d := DupKeys(all, all);
    DupKeysMembers(all, all);
    if d != [] {
      var k := d[|d| - 1];
      CountKeyPositive(all, k);
      var i :| 0 <= i < |all| && KeyOf(all[i]) == k;
    }
    if exists i :: 0 <= i < |all| && CountKey(all, KeyOf(all[i])) >= 2 {
      var i :| 0 <= i < |all| && CountKey(all, KeyOf(all[i])) >= 2;
      CountKeyPositive(all, KeyOf(all[i]));
      assert KeyOf(all[i]) in d;
    }
  }

  /** The rows with every group id cleared to 0. */
  function Cleared(rows: seq<ConvertedRow>): (r: seq<ConvertedRow>)
    ensures |r| == |rows|
    ensures forall i :: 0 <= i < |rows| ==> r[i].groupId == 0 && KeyOf(r[i]) == KeyOf(rows[i])
  {
    seq(|rows|, i requires 0 <= i < |rows| => rows[i].(groupId := 0))
  }

  /** The rows the conversion returns, tagged over the sorted records, are in key order and,
      with the group ids cleared, are exactly the sorted records: a permutation of the
      records. */
  lemma ConvertedRowsMeaning(sheet: seq<seq<Cell>>, table: MappingTable, fmt: FloatFormat, rows: seq<ConvertedRow>)
    requires |rows| == |SortByKey(Records.Records(sheet, table, fmt))|
    requires forall i :: 0 <= i < |rows| ==> rows[i] == Tagged(SortByKey(Records.Records(sheet, table, fmt)), i)
    ensures Sorted(rows)
    ensures Cleared(rows) == SortByKey(Records.Records(sheet, table, fmt))
    ensures multiset(Cleared(rows)) == multiset(Records.Records(sheet, table, fmt))
  {
    var recs := Records.Records(sheet, table, fmt);
    SortByKeySorted(recs);
    SortByKeyPermutes(recs);
    SortedRecordsUngrouped(sheet, table, fmt);
    TaggedCleared(SortByKey(recs), rows);
  }

  /** The records carry no group id yet, so neither do they once sorted. */
  lemma SortedRecordsUngrouped(sheet: seq<seq<Cell>>, table: MappingTable, fmt: FloatFormat)
    ensures forall i :: 0 <= i < |SortByKey(Records.Records(sheet, table, fmt))| ==>
      SortByKey(Records.Records(sheet, table, fmt))[i].groupId == 0
  {
    var recs := Records.Records(sheet, table, fmt);
    var sorted := SortByKey(recs);
    SortByKeyPermutes(recs);
    RecordsSoundAndComplete(sheet, table, fmt);
    forall i | 0 <= i < |sorted| ensures sorted[i].groupId == 0 {
      assert sorted[i] in multiset(recs);
    }
  }

  /** Tagging rows that carry no id changes only their ids, so clearing the ids gives the
      rows back and key order is kept. */
  lemma TaggedCleared(all: seq<ConvertedRow>, rows: seq<ConvertedRow>)
    requires |rows| == |all| && forall i :: 0 <= i < |all| ==> all[i].groupId == 0
    requires forall i :: 0 <= i < |rows| ==> rows[i] == Tagged(all, i)
    ensures Cleared(rows) == all
    ensures Sorted(all) ==> Sorted(rows)
  {
    forall i | 0 <= i < |all| ensures Cleared(rows)[i] == all[i] {
      GroupIdRange(all, i);
    }
  }

  /** What the conversion returns: the sorted, grouped rows and the duplicate statistics. */
  datatype ConversionResult = ConversionResult(
    rows: seq<ConvertedRow>,
    totalRows: nat,
    hasDuplicates: bool,
    duplicateCount: nat)

  /** The body of `read_and_convert_with_mapping` over an already read sheet: the records,
      sorted by key, with group ids and duplicate statistics. */
  method ConvertWithMapping(sheet: seq<seq<Cell>>, table: MappingTable, fmt: FloatFormat) returns (result: ConversionResult)
    ensures var sorted := SortByKey(Records.Records(sheet, table, fmt));
      && |result.rows| == |sorted|
      && (forall i :: 0 <= i < |sorted| ==> result.rows[i] == Tagged(sorted, i))
      && result.duplicateCount == DuplicateCount(sorted)
    ensures Sorted(result.rows)
    ensures multiset(Cleared(result.rows)) == multiset(Records.Records(sheet, table, fmt))
    ensures result.totalRows == |result.rows|
    ensures result.hasDuplicates <==> result.duplicateCount > 0
  {
    var rows := ConvertRows(sheet, table, fmt);
    rows := SortByKey(rows);
    var grouped, duplicateCount := AssignGroups(rows);
    var hasDuplicates := duplicateCount > 0;
    var totalRows := |grouped|;
    result := ConversionResult(grouped, totalRows, hasDuplicates, duplicateCount);
    ConvertedRowsMeaning(sheet, table, fmt, grouped);
  }
}
