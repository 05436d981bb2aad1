/** The static, insertion-ordered table from history id to execution record. Its
    static fields and static dictionary are modelled as the fields of one object. */
module Table {
  import opened Wrappers
  import opened Engine
  import opened Sequences
  import opened Records

  /** The id order after Add: a new id goes last, an existing id keeps its place, then
      the oldest entries are evicted down to the maximum count. */
  function OrderAfterAdd(order: seq<int>, historyId: int, maximumEntryCount: nat): (r: seq<int>)
  {
    KeepNewest(if historyId in order then order else order + [historyId], maximumEntryCount)
  }

  /** Adding keeps at most `maximumEntryCount` entries, drops only the oldest ones, and
      the survivors keep their order; an id already present keeps its position unless
      it is itself evicted. */
  lemma OrderAfterAddProperties(order: seq<int>, historyId: int, maximumEntryCount: nat)
    requires NoDup(order)
    ensures var r := OrderAfterAdd(order, historyId, maximumEntryCount);
      var grown := if historyId in order then order else order + [historyId];
      && NoDup(r)
      && |r| <= maximumEntryCount
      && r == grown[|grown| - |r|..]
      && (|grown| <= maximumEntryCount ==> r == grown)
      && (historyId !in order && maximumEntryCount > 0 ==> r[|r| - 1] == historyId)
  {
    var grown := if historyId in order then order else order + [historyId];
    if historyId !in order {
      AppendNoDup(order, historyId);
    }
    SuffixNoDup(grown, |grown| - |OrderAfterAdd(order, historyId, maximumEntryCount)|);
  }

  /** Below the maximum, a new id is simply appended. */
  lemma AppendUnderMaximum(order: seq<int>, historyId: int, maximumEntryCount: nat)
    requires historyId !in order && |order| < maximumEntryCount
    ensures OrderAfterAdd(order, historyId, maximumEntryCount) == order + [historyId]
  {
  }

  class ExtendedHistoryTable {
    var maximumEntryCount: int
    var maximumItemCountPerEntry: int
    var watermark: int
    // Read and reset by OutDefaultCommand as a static flag of this class, which
    // ExtendedHistoryTable.cs itself does not declare.
    var onRemove: bool
    var order: seq<int>                          // the ids, oldest first
    var records: map<int, ExtendedHistoryInfo>

    /** The order lists each stored id once, and every record is filed under its own id
        (so distinct ids hold distinct records). */
    ghost predicate Valid()
      reads this`order, this`records
    {
      && NoDup(order)
      && Elements(order) == records.Keys
      && forall k :: k in records ==> records[k].id == k
    }

    /** Every record holds both collections, so a merge into it cannot throw. */
    ghost predicate CollectionsPresent()
      reads this`records, records.Values
    {
      forall k :: k in records ==> records[k].output.Some? && records[k].error.Some?
    }

    /** The static initial state. */
    constructor ()
      ensures Valid()
      ensures maximumEntryCount == 200 && maximumItemCountPerEntry == 1000 && watermark == -1
      ensures !onRemove && order == [] && records == map[]
    {
      maximumEntryCount := 200;
      maximumItemCountPerEntry := 1000;
      watermark := -1;
      onRemove := false;
      order := [];
      records := map[];
    }

    /** Lookup by id; the ordered dictionary's indexer yields null for a missing key. */
    function Item(historyId: int): (r: ExtendedHistoryInfo?)
      reads this
      requires Valid()
      ensures (r != null) == (historyId in order)
      ensures r != null ==> r.id == historyId && r == records[historyId]
    {
      if historyId in records then records[historyId] else null
    }

    method Clear()
      modifies this
      ensures Valid() && order == [] && records == map[]
      ensures maximumEntryCount == old(maximumEntryCount) && maximumItemCountPerEntry == old(maximumItemCountPerEntry)
      ensures watermark == old(watermark) && onRemove == old(onRemove)
    {
      order := [];
      records := map[];
    }

    /** Insert a fresh record, or merge into the record already filed under the id,
        then evict from the front down to the maximum count (RemoveAt(0) throws on an
        empty table, so a negative maximum is excluded). */
    method Add(historyId: int, commandSuccessful: Option<bool>, output: Option<seq<PSObject>>,
               outputCount: int, error: Option<seq<PSObject>>)
      requires Valid() && maximumEntryCount >= 0
      requires historyId in records ==>
        records[historyId].output.Some? && records[historyId].error.Some? && output.Some? && error.Some?
      modifies this, if historyId in records then {records[historyId]} else {}
      ensures Valid()
      ensures order == OrderAfterAdd(old(order), historyId, old(maximumEntryCount))
      ensures forall k :: k in records && k != historyId ==>
        && k in old(records) && records[k] == old(records[k])
        && records[k].output == old(records[k].output) && records[k].outputCount == old(records[k].outputCount)
        && records[k].error == old(records[k].error)
      ensures old(CollectionsPresent()) && output.Some? && error.Some? ==> CollectionsPresent()
      ensures historyId in records && historyId !in old(records) ==>
        && fresh(records[historyId])
        && records[historyId].commandSuccessful == commandSuccessful
        && records[historyId].output == output && records[historyId].outputCount == outputCount
        && records[historyId].error == error
      ensures historyId in records && historyId in old(records) ==>
        && records[historyId] == old(records[historyId])
        && records[historyId].output == Some(old(records[historyId].output.value) + output.value)
        && records[historyId].outputCount == old(records[historyId].outputCount) + outputCount
        && records[historyId].error == Some(old(records[historyId].error.value) + error.value)
      ensures maximumEntryCount == old(maximumEntryCount) && maximumItemCountPerEntry == old(maximumItemCountPerEntry)
      ensures watermark == old(watermark) && onRemove == old(onRemove)
    {
      if historyId !in records {
        Insert(historyId, commandSuccessful, output, outputCount, error);
      } else {
        Merge(historyId, output, outputCount, error);
      }
      EvictOldest();
      if old(CollectionsPresent()) && output.Some? && error.Some? {
        forall k | k in records ensures records[k].output.Some? && records[k].error.Some? {
          if k != historyId {
            assert old(records[k].output.Some? && records[k].error.Some?);
          }
        }
      }
    }

    /** Add's case of a new id: a fresh record is filed under it and the id goes last. */
    method Insert(historyId: int, commandSuccessful: Option<bool>, output: Option<seq<PSObject>>,
                  outputCount: int, error: Option<seq<PSObject>>)
      requires Valid() && historyId !in records
      modifies this
      ensures Valid()
      ensures order == old(order) + [historyId]
      ensures historyId in records && records == old(records)[historyId := records[historyId]]
      ensures fresh(records[historyId])
      ensures records[historyId].commandSuccessful == commandSuccessful
      ensures records[historyId].output == output && records[historyId].outputCount == outputCount
      ensures records[historyId].error == error
      ensures maximumEntryCount == old(maximumEntryCount) && maximumItemCountPerEntry == old(maximumItemCountPerEntry)
      ensures watermark == old(watermark) && onRemove == old(onRemove)
    {
      var info := new ExtendedHistoryInfo(historyId, commandSuccessful, output, outputCount, error);
      AppendNoDup(order, historyId);
      records := records[historyId := info];
      order := order + [historyId];
    }

    /** Add's case of a filed id: the contribution is merged into that record and no
        other record changes. */
    method Merge(historyId: int, output: Option<seq<PSObject>>, outputCount: int, error: Option<seq<PSObject>>)
      requires Valid() && historyId in records
      requires records[historyId].output.Some? && records[historyId].error.Some? && output.Some? && error.Some?
      modifies records[historyId]
      ensures records[historyId].output == Some(old(records[historyId].output.value) + output.value)
      ensures records[historyId].outputCount == old(records[historyId].outputCount) + outputCount
      ensures records[historyId].error == Some(old(records[historyId].error.value) + error.value)
      ensures forall k :: k in records && k != historyId ==>
        && records[k].output == old(records[k].output) && records[k].outputCount == old(records[k].outputCount)
        && records[k].error == old(records[k].error)
    {
      records[historyId].Update(output, outputCount, error);
    }

    /** The eviction loop of Add: RemoveAt(0) until the count is within the maximum. */
    method EvictOldest()
      requires Valid() && maximumEntryCount >= 0
      modifies this
      ensures maximumEntryCount == old(maximumEntryCount) && maximumItemCountPerEntry == old(maximumItemCountPerEntry)
      ensures watermark == old(watermark) && onRemove == old(onRemove)
      ensures Valid()
      ensures order == KeepNewest(old(order), maximumEntryCount)
      ensures forall k :: k in records ==> k in old(records) && records[k] == old(records[k])
    {
      var n := if |order| > maximumEntryCount then |order| - maximumEntryCount else 0;
      var o, r := DropOldest(order, records, n);
      PrefixEvicted(order, records, n);
      order, records := o, r;
    }

    /** Move the watermark past the errors just collected; nothing else changes. */
    method MoveWatermark(newWatermark: int)
      modifies this`watermark
      ensures watermark == newWatermark
    {
      watermark := newWatermark;
    }

    /** Reset the removal flag and move the watermark; nothing else changes. */
    method EndRemoval(newWatermark: int)
      modifies this`onRemove, this`watermark
      ensures !onRemove && watermark == newWatermark
    {
      onRemove := false;
      watermark := newWatermark;
    }

    /** Remove one id; an absent id changes nothing. */
    method Remove(historyId: int)
      requires Valid()
      modifies this
      ensures Valid()
      ensures order == Without(old(order), historyId) && records == old(records) - {historyId}
      ensures maximumEntryCount == old(maximumEntryCount) && maximumItemCountPerEntry == old(maximumItemCountPerEntry)
      ensures watermark == old(watermark) && onRemove == old(onRemove)
    {
      RemovedKey(order, records, historyId);
      order := Without(order, historyId);
      records := records - {historyId};
    }

    /** As written: a null or empty list clears the table; otherwise the ids of the
        table that DO occur in the list are collected and removed, and the others stay. */
    method RemoveAllExcept(historyIds: Option<seq<int>>)
      requires Valid()
      modifies this
      ensures Valid()
      ensures historyIds.None? || historyIds.value == [] ==> order == [] && records == map[]
      ensures historyIds.Some? && historyIds.value != [] ==>
        && order == FilterOut(old(order), historyIds.value)
        && records == old(records) - Elements(historyIds.value)
      ensures maximumEntryCount == old(maximumEntryCount) && maximumItemCountPerEntry == old(maximumItemCountPerEntry)
      ensures watermark == old(watermark) && onRemove == old(onRemove)
    {
      if historyIds.None? || |historyIds.value| == 0 {
        order := [];
        records := map[];
      } else {
        var ids := historyIds.value;
        var idsToRemove := CollectIds(order, ids, true);
        RemoveIds(idsToRemove);
        FilterInOutComplement(old(order), ids);
      }
    }

    /** As evidently intended (and as a sync with the shell's own history needs): keep
        exactly the ids that occur in the list, dropping all others; an empty or null
        list keeps nothing. */
    method RemoveAllExceptListed(historyIds: Option<seq<int>>)
      requires Valid()
      modifies this
      ensures Valid()
      ensures historyIds.None? ==> order == [] && records == map[]
      ensures historyIds.Some? ==>
        && order == FilterIn(old(order), historyIds.value)
        && records == old(records) - (old(records).Keys - Elements(historyIds.value))
      ensures maximumEntryCount == old(maximumEntryCount) && maximumItemCountPerEntry == old(maximumItemCountPerEntry)
      ensures watermark == old(watermark) && onRemove == old(onRemove)
    {
      if historyIds.None? || |historyIds.value| == 0 {
        FilterInNothing(order);
        order := [];
        records := map[];
      } else {
        var ids := historyIds.value;
        var idsToRemove := CollectIds(order, ids, false);
        RemoveIds(idsToRemove);
        FilterOutComplementIsFilterIn(old(order), FilterOut(old(order), ids), ids);
      }
    }

    /** Remove each listed id in turn. */
    method RemoveIds(idsToRemove: seq<int>)
      requires Valid()
      modifies this
      ensures Valid()
      ensures order == FilterOut(old(order), idsToRemove)
      ensures records == old(records) - Elements(idsToRemove)
      ensures maximumEntryCount == old(maximumEntryCount) && maximumItemCountPerEntry == old(maximumItemCountPerEntry)
      ensures watermark == old(watermark) && onRemove == old(onRemove)
    {
      ghost var o0, r0 := order, records;
      FilterOutNothing(o0);
      var j := 0;
      while j < |idsToRemove|
        invariant 0 <= j <= |idsToRemove|
        invariant order == FilterOut(o0, idsToRemove[..j])
        invariant records == r0 - Elements(idsToRemove[..j])
        invariant Valid()
        invariant maximumEntryCount == old(maximumEntryCount) && maximumItemCountPerEntry == old(maximumItemCountPerEntry)
        invariant watermark == old(watermark) && onRemove == old(onRemove)
      {
        var id := idsToRemove[j];
        PrefixStep(o0, idsToRemove, j);
        RemovedStep(r0, idsToRemove, j);
        Remove(id);
        j := j + 1;
      }
      assert idsToRemove[..j] == idsToRemove;
    }
  }

  /** Extending the prefix of removed ids by one is one more removal. */
  lemma PrefixStep(o0: seq<int>, ids: seq<int>, j: nat)
    requires j < |ids|
    ensures FilterOut(o0, ids[..j + 1]) == Without(FilterOut(o0, ids[..j]), ids[j])
    ensures Elements(ids[..j + 1]) == Elements(ids[..j]) + {ids[j]}
  {
    assert ids[..j + 1] == ids[..j] + [ids[j]];
    FilterOutSnoc(o0, ids[..j], ids[j]);
  }

  /** Removing the ids of a prefix one longer removes one more key. */
  lemma RemovedStep(r0: map<int, ExtendedHistoryInfo>, ids: seq<int>, j: nat)
    requires j < |ids|
    ensures r0 - Elements(ids[..j + 1]) == (r0 - Elements(ids[..j])) - {ids[j]}
  {
    assert ids[..j + 1] == ids[..j] + [ids[j]];
  }

  /** Keeping the values of an empty list keeps nothing. */
  lemma FilterInNothing(s: seq<int>)
    ensures FilterIn(s, []) == []
  {
    if FilterIn(s, []) != [] {
      assert FilterIn(s, [])[0] in FilterIn(s, []);
    }
  }

  /** The first loop of RemoveAllExcept: walk the table's ids in order and collect
      those that occur in the list (`listed`) or, for the intended version, those
      that do not. */
  method CollectIds(order: seq<int>, ids: seq<int>, listed: bool) returns (collected: seq<int>)
    ensures listed ==> collected == FilterIn(order, ids)
    ensures !listed ==> collected == FilterOut(order, ids)
  {
    collected := [];
    var i := 0;
    while i < |order|
      invariant 0 <= i <= |order|
      invariant listed ==> collected == FilterIn(order[..i], ids)
      invariant !listed ==> collected == FilterOut(order[..i], ids)
    {
      assert order[..i + 1] == order[..i] + [order[i]];
      FilterInSnoc(order[..i], order[i], ids);
      FilterOutSnocSource(order[..i], order[i], ids);
      if (order[i] in ids) == listed {
        collected := collected + [order[i]];
      }
      i := i + 1;
    }
    assert order[..i] == order;
  }
  /** As written, "remove all except [1]" on a table that received ids 1 and 2 removes 1
      and keeps 2. */
  lemma RemoveAllExceptDropsListed()
    ensures var order := OrderAfterAdd(OrderAfterAdd([], 1, 200), 2, 200);
      order == [1, 2] && FilterOut(order, [1]) == [2]
  {
    AppendUnderMaximum([], 1, 200);
    AppendUnderMaximum([1], 2, 200);
    assert FilterOut([1, 2], [1]) == FilterOut([2], [1]);
  }

  /** With the intended version, the same call keeps 1 and drops 2. */
  lemma RemoveAllExceptListedKeepsListed()
    ensures var order := OrderAfterAdd(OrderAfterAdd([], 1, 200), 2, 200);
      order == [1, 2] && FilterIn(order, [1]) == [1]
  {
    AppendUnderMaximum([], 1, 200);
    AppendUnderMaximum([1], 2, 200);
    assert FilterIn([1, 2], [1]) == [1] + FilterIn([2], [1]);
  }

  /** A table limited to three entries receives executions 1 to 4 and retains 2, 3, 4;
      a second contribution to 2 does not move it; keeping only 3 and 4 leaves 3, 4. */
  lemma ThreeEntryScenario()
    ensures var afterAdds := OrderAfterAdd(OrderAfterAdd(OrderAfterAdd(OrderAfterAdd([], 1, 3), 2, 3), 3, 3), 4, 3);
      && afterAdds == [2, 3, 4]
      && OrderAfterAdd(afterAdds, 2, 3) == [2, 3, 4]
      && FilterIn(afterAdds, [3, 4]) == [3, 4]
  {
    AppendUnderMaximum([], 1, 3);
    assert OrderAfterAdd([], 1, 3) == [1];
    AppendUnderMaximum([1], 2, 3);
    assert OrderAfterAdd([1], 2, 3) == [1, 2];
    AppendUnderMaximum([1, 2], 3, 3);
    assert OrderAfterAdd([1, 2], 3, 3) == [1, 2, 3];
    FourthEvictsFirst();
    ExistingKeepsPlace();
    KeepOnlyNewestTwo();
  }

  /** The fourth id evicts the first. */
  lemma FourthEvictsFirst()
    ensures OrderAfterAdd([1, 2, 3], 4, 3) == [2, 3, 4]
  {
    assert 4 !in [1, 2, 3];
    assert [1, 2, 3] + [4] == [1, 2, 3, 4];
    assert [1, 2, 3, 4][1..] == [2, 3, 4];
  }

  /** A present id keeps its place. */
  lemma ExistingKeepsPlace()
    ensures OrderAfterAdd([2, 3, 4], 2, 3) == [2, 3, 4]
  {
    assert [2, 3, 4][0] == 2;
  }

  /** Keeping 3 and 4 out of 2, 3, 4. */
  lemma KeepOnlyNewestTwo()
    ensures FilterIn([2, 3, 4], [3, 4]) == [3, 4]
  {
    assert [2, 3, 4][1..] == [3, 4] && [3, 4][1..] == [4] && [4][1..] == [];
    assert FilterIn([4], [3, 4]) == [4];
  }
}
