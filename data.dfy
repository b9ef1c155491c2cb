/**
 The mapping store of pipeline/api/data.py: choosing the newest mapping and
 data snapshot among the processed files, and flattening the parsed mapping
 file (a list of small expansion-to-abbreviation objects) into one dict.
 */
module Data {
  import opened Collections
  import opened Paths

  /** What `json.load` gives for one object of the mapping file: its items in order. */
  type Record = seq<(string, string)>

  /** The flat mapping from expansion to abbreviation. */
  type Mapping = Dict<string>

  /** Which selection in `_get_latest` found nothing; Python raises IndexError on its `[0]`. */
  datatype LatestError = NoMappingFile | NoDataFile

  datatype Result<T> = Success(value: T) | Failure(error: LatestError)

  /** All items of the records, record after record. */
  function Concat(data: seq<Record>): seq<(string, string)> {
    if data == [] then [] else Concat(data[..|data| - 1]) + data[|data| - 1]
  }

  /** The keys of a list of items, in order. */
  function KeysOf(items: seq<(string, string)>): (ks: seq<string>)
    ensures |ks| == |items|
    ensures forall n :: 0 <= n < |items| ==> ks[n] == items[n].0
  {
    if items == [] then [] else KeysOf(items[..|items| - 1]) + [items[|items| - 1].0]
  }

  /** `result[key] = value` for each item in turn, starting from `{}`. */
  function Assign(items: seq<(string, string)>): (d: Mapping)
    ensures d.Valid()
  {
    if items == [] then Empty()
    else Assign(items[..|items| - 1]).Put(items[|items| - 1].0, items[|items| - 1].1)
  }

  /** What `load_mapping` returns for the parsed file `data`. */
  function Flatten(data: seq<Record>): (d: Mapping)
    ensures d.Valid()
  {
    Assign(Concat(data))
  }

  datatype FileHandler = FileHandler(mappingSuffix: string, dataSuffix: string) {

    /**
     `_get_latest`: the greatest file with the mapping suffix and the greatest
     file with the data suffix, among the files found under the processed
     directory.
     */
    function GetLatest(files: seq<Path>): (r: Result<(Path, Path)>)
      ensures r == Failure(NoMappingFile) <==> !AnyWithSuffix(files, mappingSuffix)
      ensures r == Failure(NoDataFile) <==>
                AnyWithSuffix(files, mappingSuffix) && !AnyWithSuffix(files, dataSuffix)
      ensures r.Success? ==>
                IsLatest(r.value.0, files, mappingSuffix) && IsLatest(r.value.1, files, dataSuffix)
    {
      var maps := WithSuffix(SortDesc(files), mappingSuffix);
      FoundExactlyWhenAny(files, mappingSuffix);
      FoundExactlyWhenAny(files, dataSuffix);
      if |maps| == 0 then Failure(NoMappingFile)
      else
        var train := WithSuffix(SortDesc(files), dataSuffix);
        if |train| == 0 then Failure(NoDataFile)
        else
          FirstOfSortedIsLatest(files, mappingSuffix);
          FirstOfSortedIsLatest(files, dataSuffix);
          Success((maps[0], train[0]))
    }

    /** `load_mapping` on the already parsed file: the nested loops that fill `result`. */
    method LoadMapping(data: seq<Record>) returns (result: Mapping)
      ensures result == Flatten(data)
      ensures result.Valid()
    {
      result := Empty();
      var i := 0;
      while i < |data|
        invariant 0 <= i <= |data|
        invariant result == Assign(Concat(data[..i]))
      {
        var item := data[i];
        ghost var before := Concat(data[..i]);
        var j := 0;
        assert item[..j] == [];
        assert before + item[..j] == before;
        while j < |item|
          invariant 0 <= j <= |item|
          invariant result == Assign(before + item[..j])
        {
          var (key, value) := item[j];
          AssignStep(before, item, j);
          result := result.Put(key, value);
          j := j + 1;
        }
        ConcatStep(data, i);
        i := i + 1;
      }
      assert data[..i] == data;
    }
  }

  lemma ConcatStep(data: seq<Record>, i: nat)
    requires i < |data|
    ensures Concat(data[..i + 1]) == Concat(data[..i]) + data[i][..|data[i]|]
  {
    assert data[..i + 1][..i] == data[..i];
    assert data[i][..|data[i]|] == data[i];
  }

  lemma AssignStep(before: seq<(string, string)>, item: Record, j: nat)
    requires j < |item|
    ensures Assign(before + item[..j + 1]) == Assign(before + item[..j]).Put(item[j].0, item[j].1)
  {
    var done := before + item[..j];
    assert before + item[..j + 1] == done + [item[j]];
    assert (done + [item[j]])[..|done|] == done;
  }

  /** The comprehension over the sorted files is empty exactly when no file has the suffix. */
  lemma FoundExactlyWhenAny(files: seq<Path>, suffix: string)
    ensures WithSuffix(SortDesc(files), suffix) != [] <==> AnyWithSuffix(files, suffix)
  {
    var sorted := SortDesc(files);
    var found := WithSuffix(sorted, suffix);
    if found != [] {
      SortedSameFiles(files, found[0]);
    }
    if f :| f in files && Suffix(f) == suffix {
      SortedSameFiles(files, f);
    }
  }

  lemma SortedSameFiles(files: seq<Path>, f: Path)
    ensures f in SortDesc(files) <==> f in files
  {
    assert f in multiset(SortDesc(files)) <==> f in multiset(files);
  }

  /** `_get_latest` gives the same answer for any listing order of the same files. */
  lemma GetLatestIgnoresOrder(h: FileHandler, files: seq<Path>, others: seq<Path>)
    requires forall f :: f in files <==> f in others
    ensures h.GetLatest(files) == h.GetLatest(others)
  {
    var a, b := h.GetLatest(files), h.GetLatest(others);
    assert AnyWithSuffix(files, h.mappingSuffix) <==> AnyWithSuffix(others, h.mappingSuffix);
    assert AnyWithSuffix(files, h.dataSuffix) <==> AnyWithSuffix(others, h.dataSuffix);
    if a.Success? {
      LatestIsUnique(a.value.0, b.value.0, files, others, h.mappingSuffix);
      LatestIsUnique(a.value.1, b.value.1, files, others, h.dataSuffix);
    }
  }

  /** The keys of the result are exactly the keys of the items. */
  lemma {:induction false} AssignKeys(items: seq<(string, string)>)
    ensures forall k :: k in Assign(items).entries <==> k in KeysOf(items)
  {
    if items != [] {
      var n := |items| - 1;
      AssignKeys(items[..n]);
      assert KeysOf(items) == KeysOf(items[..n]) + [items[n].0];
    }
  }

  /** Every value of the result is the value of an item with that key. */
  lemma {:induction false} AssignValuesFromItems(items: seq<(string, string)>)
    ensures forall k :: k in Assign(items).entries ==> (k, Assign(items).entries[k]) in items
  {
    if items != [] {
      var n := |items| - 1;
      AssignValuesFromItems(items[..n]);
      assert items == items[..n] + [items[n]];
    }
  }

  /** The value kept for a key is that of its last item. */
  lemma {:induction false} AssignLastWins(items: seq<(string, string)>, n: nat)
    requires n < |items|
    requires forall m :: n < m < |items| ==> items[m].0 != items[n].0
    ensures items[n].0 in Assign(items).entries && Assign(items).entries[items[n].0] == items[n].1
  {
    if n < |items| - 1 {
      AssignLastWins(items[..|items| - 1], n);
    }
  }

  /** Keys keep the place where they were first assigned. */
  lemma {:induction false} AssignKeyOrder(items: seq<(string, string)>)
    ensures Assign(items).keys == Dedup(KeysOf(items))
  {
    if items != [] {
      var n := |items| - 1;
      AssignKeyOrder(items[..n]);
      AssignKeys(items[..n]);
      assert KeysOf(items)[..n] == KeysOf(items[..n]);
    }
  }

  lemma {:induction false} ConcatAppend(a: seq<Record>, b: seq<Record>)
    ensures Concat(a + b) == Concat(a) + Concat(b)
  {
    if b != [] {
      var n := |b| - 1;
      assert (a + b)[..|a| + n] == a + b[..n];
      ConcatAppend(a, b[..n]);
    } else {
      assert a + b == a;
    }
  }

  /** An item belongs to the concatenation exactly when it belongs to one of the records. */
  lemma {:induction false} ConcatMember(data: seq<Record>, x: (string, string))
    ensures x in Concat(data) <==> exists i :: 0 <= i < |data| && x in data[i]
  {
    if data != [] {
      var n := |data| - 1;
      ConcatMember(data[..n], x);
      if x in data[n] {
        assert x in Concat(data);
      }
      if i :| 0 <= i < |data| && x in data[i] {
        if i < n {
          assert data[..n][i] == data[i];
        }
      }
    }
  }

  /**
   The keys of `load_mapping`'s result are exactly the keys of all records,
   whatever the number of entries per record.
   */
  lemma FlattenKeys(data: seq<Record>, k: string)
    ensures k in Flatten(data).entries <==>
              exists i, j :: 0 <= i < |data| && 0 <= j < |data[i]| && data[i][j].0 == k
  {
    var items := Concat(data);
    AssignKeys(items);
    if k in Flatten(data).entries {
      var n :| 0 <= n < |items| && KeysOf(items)[n] == k;
      ConcatMember(data, items[n]);
      var i :| 0 <= i < |data| && items[n] in data[i];
      var j :| 0 <= j < |data[i]| && data[i][j] == items[n];
    }
    if i, j :| 0 <= i < |data| && 0 <= j < |data[i]| && data[i][j].0 == k {
      ConcatMember(data, data[i][j]);
      var n :| 0 <= n < |items| && items[n] == data[i][j];
      assert KeysOf(items)[n] == k;
    }
  }

  /** No value is invented: each one was given for that key in some record. */
  lemma FlattenValuesFromRecords(data: seq<Record>, k: string)
    requires k in Flatten(data).entries
    ensures exists i :: 0 <= i < |data| && (k, Flatten(data).entries[k]) in data[i]
  {
    AssignValuesFromItems(Concat(data));
    ConcatMember(data, (k, Flatten(data).entries[k]));
  }

  /**
   Last write wins: the value kept for k is the one at its last place in the
   last record that has k.
   */
  lemma FlattenLastRecordWins(data: seq<Record>, i: nat, j: nat)
    requires i < |data| && j < |data[i]|
    requires forall j' :: j < j' < |data[i]| ==> data[i][j'].0 != data[i][j].0
    requires forall i', j' :: i < i' < |data| && 0 <= j' < |data[i']| ==> data[i'][j'].0 != data[i][j].0
    ensures data[i][j].0 in Flatten(data).entries
    ensures Flatten(data).entries[data[i][j].0] == data[i][j].1
  {
    var before, after := data[..i], data[i + 1..];
    assert data == before + [data[i]] + after;
    SplitAt(before, data[i], after);
    var items := Concat(data);
    var base := |Concat(before)|;
    assert items[base + j] == data[i][j];
    forall m | base + j < m < |items| ensures items[m].0 != data[i][j].0 {
      if m < base + |data[i]| {
        assert items[m] == data[i][m - base];
      } else {
        LaterRecordItem(data, i, items[m]);
      }
    }
    AssignLastWins(items, base + j);
  }

  /** The items of the file around one of its records. */
  lemma SplitAt(before: seq<Record>, x: Record, after: seq<Record>)
    ensures Concat(before + [x] + after) == Concat(before) + x + Concat(after)
  {
    var upTo := before + [x];
    assert Concat(upTo) == Concat(before) + x by {
      ConcatAppend(before, [x]);
      assert [x][..0] == [];
    }
    ConcatAppend(upTo, after);
  }

  /** An item of a record after record i belongs to one of the later records. */
  lemma LaterRecordItem(data: seq<Record>, i: nat, x: (string, string))
    requires i < |data| && x in Concat(data[i + 1..])
    ensures exists i', j' :: i < i' < |data| && 0 <= j' < |data[i']| && data[i'][j'] == x
  {
    var after := data[i + 1..];
    ConcatMember(after, x);
    var i'' :| 0 <= i'' < |after| && x in after[i''];
    var j'' :| 0 <= j'' < |after[i'']| && after[i''][j''] == x;
    assert after[i''] == data[i + 1 + i''];
  }

  /**
   The result lists its keys in the order of their first appearance in the
   file: reassigning a key does not move it.
   */
  lemma FlattenKeyOrder(data: seq<Record>)
    ensures Flatten(data).keys == Dedup(KeysOf(Concat(data)))
    ensures InFirstOccurrenceOrder(Flatten(data).keys, KeysOf(Concat(data)))
  {
    AssignKeyOrder(Concat(data));
    DedupOrder(KeysOf(Concat(data)));
  }
}
