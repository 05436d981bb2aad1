/** The per-runspace registry of extended history tables. It creates a table the first
    time a runspace asks for one, drops it when the runspace closes or when the module
    is removed and the runspace becomes available again, and forwards entries and the
    error-log watermark to the current runspace's table. Runspace ids (GUIDs) are
    integers here, the default runspace is passed in (`None` when there is none), and
    an event subscription is an occurrence of the runspace id in a multiset, so that a
    handler added twice is subscribed twice. */
module Manager {
  import opened Wrappers
  import opened Engine
  import opened Sequences
  import opened Config
  import opened OutDefault

  /** The arguments of one Add call on a per-runspace table (the output sources are
      not modelled). */
  datatype EntryArgs = EntryArgs(historyId: int, output: seq<PSObject>, outputCount: int,
                                 error: seq<PSObject>, commandSuccessful: bool)

  /** The per-runspace table as the registry uses it: created with the two maximums,
      cleared, added to, and holding a watermark. Its own bookkeeping is not part of
      this model, so it records the entries it was given. */
  class RunspaceTable {
    const maximumEntryCount: int
    const maximumItemCountPerEntry: int
    var watermark: int
    var entries: seq<EntryArgs>

    /** A new, empty table; its initial watermark is left unspecified. */
    constructor (maximumEntryCount: int, maximumItemCountPerEntry: int)
      ensures this.maximumEntryCount == maximumEntryCount
      ensures this.maximumItemCountPerEntry == maximumItemCountPerEntry
      ensures entries == []
    {
      this.maximumEntryCount := maximumEntryCount;
      this.maximumItemCountPerEntry := maximumItemCountPerEntry;
      entries := [];
    }

    method Clear()
      modifies this
      ensures entries == [] && watermark == old(watermark)
    {
      entries := [];
    }

    method Add(e: EntryArgs)
      modifies this
      ensures entries == old(entries) + [e] && watermark == old(watermark)
    {
      entries := entries + [e];
    }
  }

  datatype RunspaceState = BeforeOpen | Opening | Opened | Closed | Closing | Broken | Disconnecting | Disconnected | Connecting

  datatype RunspaceAvailability = NoAvailability | Available | AvailableForNestedCommand | Busy | RemoteDebug

  /** The singleton registry. */
  class ExtendedHistoryManager {
    var runspaceExtendedHistory: map<int, RunspaceTable>
    var runspacesProcessingModuleRemoveEvent: seq<int>
    var stateChangedSubscriptions: multiset<int>
    var availabilityChangedSubscriptions: multiset<int>
    var maximumEntryCount: int
    var maximumItemCountPerEntry: int

    /** The pending list has no duplicates and every pending runspace is subscribed
        to availability changes once; every registered runspace is subscribed to
        state changes; distinct runspaces have distinct tables. */
    ghost predicate Valid()
      reads this
    {
      && NoDup(runspacesProcessingModuleRemoveEvent)
      && availabilityChangedSubscriptions == multiset(runspacesProcessingModuleRemoveEvent)
      && (forall id :: id in runspaceExtendedHistory ==> id in stateChangedSubscriptions)
      && DistinctTables()
    }

    /** Distinct runspaces have distinct table objects. */
    ghost predicate DistinctTables()
      reads this
    {
      forall a, b :: a in runspaceExtendedHistory && b in runspaceExtendedHistory && a != b ==>
        runspaceExtendedHistory[a] != runspaceExtendedHistory[b]
    }

    /** The stronger invariant the subscriptions were evidently meant to keep: each
        registered runspace is subscribed to state changes exactly once, and no other. */
    ghost predicate BalancedSubscriptions()
      reads this
    {
      stateChangedSubscriptions == multiset(runspaceExtendedHistory.Keys)
    }

    /** The lazily created instance, with the static maximums' initial values. */
    constructor ()
      ensures Valid() && BalancedSubscriptions()
      ensures runspaceExtendedHistory == map[] && runspacesProcessingModuleRemoveEvent == []
      ensures stateChangedSubscriptions == multiset{} && availabilityChangedSubscriptions == multiset{}
      ensures maximumEntryCount == 200 && maximumItemCountPerEntry == 1000
    {
      runspaceExtendedHistory := map[];
      runspacesProcessingModuleRemoveEvent := [];
      stateChangedSubscriptions := multiset{};
      availabilityChangedSubscriptions := multiset{};
      maximumEntryCount := 200;
      maximumItemCountPerEntry := 1000;
    }

    /** A runspace that is closing and registered loses its subscription, and its
        table is cleared and dropped. */
    method OnRunspaceStateChanged(runspaceId: int, state: RunspaceState)
      requires Valid()
      modifies this, runspaceExtendedHistory.Values
      ensures Valid()
      ensures old(BalancedSubscriptions()) ==> BalancedSubscriptions()
      ensures runspacesProcessingModuleRemoveEvent == old(runspacesProcessingModuleRemoveEvent)
      ensures availabilityChangedSubscriptions == old(availabilityChangedSubscriptions)
      ensures maximumEntryCount == old(maximumEntryCount) && maximumItemCountPerEntry == old(maximumItemCountPerEntry)
      ensures state == Closing && runspaceId in old(runspaceExtendedHistory) ==>
        && runspaceExtendedHistory == old(runspaceExtendedHistory) - {runspaceId}
        && stateChangedSubscriptions == old(stateChangedSubscriptions) - multiset{runspaceId}
        && old(runspaceExtendedHistory)[runspaceId].entries == []
        && old(runspaceExtendedHistory)[runspaceId].watermark == old(runspaceExtendedHistory[runspaceId].watermark)
      ensures !(state == Closing && runspaceId in old(runspaceExtendedHistory)) ==>
        && runspaceExtendedHistory == old(runspaceExtendedHistory)
        && stateChangedSubscriptions == old(stateChangedSubscriptions)
      ensures forall id :: id in runspaceExtendedHistory ==>
        && runspaceExtendedHistory[id].entries == old(runspaceExtendedHistory[id].entries)
        && runspaceExtendedHistory[id].watermark == old(runspaceExtendedHistory[id].watermark)
    {
      if state == Closing && runspaceId in runspaceExtendedHistory {
        Unregister(runspaceId);
      }
    }

    /** Unsubscribe a registered runspace from state changes, then clear and drop its
        table. */
    method Unregister(runspaceId: int)
      requires Valid() && runspaceId in runspaceExtendedHistory
      modifies this, runspaceExtendedHistory[runspaceId]
      ensures Valid()
      ensures old(BalancedSubscriptions()) ==> BalancedSubscriptions()
      ensures runspaceExtendedHistory == old(runspaceExtendedHistory) - {runspaceId}
      ensures stateChangedSubscriptions == old(stateChangedSubscriptions) - multiset{runspaceId}
      ensures old(runspaceExtendedHistory)[runspaceId].entries == []
      ensures old(runspaceExtendedHistory)[runspaceId].watermark == old(runspaceExtendedHistory[runspaceId].watermark)
      ensures forall id :: id in runspaceExtendedHistory ==>
        && runspaceExtendedHistory[id].entries == old(runspaceExtendedHistory[id].entries)
        && runspaceExtendedHistory[id].watermark == old(runspaceExtendedHistory[id].watermark)
      ensures runspacesProcessingModuleRemoveEvent == old(runspacesProcessingModuleRemoveEvent)
      ensures availabilityChangedSubscriptions == old(availabilityChangedSubscriptions)
      ensures maximumEntryCount == old(maximumEntryCount) && maximumItemCountPerEntry == old(maximumItemCountPerEntry)
    {
      KeysWithout(runspaceExtendedHistory, runspaceId);
      stateChangedSubscriptions := stateChangedSubscriptions - multiset{runspaceId};
      DropTable(runspaceId);
    }

    /** Clear a registered runspace's table and remove it from the registry. */
    method DropTable(runspaceId: int)
      requires runspaceId in runspaceExtendedHistory && DistinctTables()
      modifies this, runspaceExtendedHistory[runspaceId]
      ensures DistinctTables()
      ensures runspaceExtendedHistory == old(runspaceExtendedHistory) - {runspaceId}
      ensures old(runspaceExtendedHistory)[runspaceId].entries == []
      ensures old(runspaceExtendedHistory)[runspaceId].watermark == old(runspaceExtendedHistory[runspaceId].watermark)
      ensures forall id :: id in runspaceExtendedHistory ==>
        && runspaceExtendedHistory[id].entries == old(runspaceExtendedHistory[id].entries)
        && runspaceExtendedHistory[id].watermark == old(runspaceExtendedHistory[id].watermark)
      ensures runspacesProcessingModuleRemoveEvent == old(runspacesProcessingModuleRemoveEvent)
      ensures stateChangedSubscriptions == old(stateChangedSubscriptions)
      ensures availabilityChangedSubscriptions == old(availabilityChangedSubscriptions)
      ensures maximumEntryCount == old(maximumEntryCount) && maximumItemCountPerEntry == old(maximumItemCountPerEntry)
    {
      runspaceExtendedHistory[runspaceId].Clear();
      runspaceExtendedHistory := runspaceExtendedHistory - {runspaceId};
    }

    /** As written: when a runspace waiting for the module's removal becomes available
        (or reports no availability), its availability subscription and pending mark
        go, and its table, if any, is cleared and dropped. Its state-change
        subscription is NOT removed. */
    method OnRunspaceAvailabilityChanged(runspaceId: int, availability: RunspaceAvailability)
      requires Valid()
      modifies this, runspaceExtendedHistory.Values
      ensures Valid()
      ensures stateChangedSubscriptions == old(stateChangedSubscriptions)
      ensures maximumEntryCount == old(maximumEntryCount) && maximumItemCountPerEntry == old(maximumItemCountPerEntry)
      ensures (availability.Available? || availability.NoAvailability?) && runspaceId in old(runspacesProcessingModuleRemoveEvent) ==>
        && runspacesProcessingModuleRemoveEvent == Without(old(runspacesProcessingModuleRemoveEvent), runspaceId)
        && availabilityChangedSubscriptions == old(availabilityChangedSubscriptions) - multiset{runspaceId}
        && runspaceExtendedHistory == old(runspaceExtendedHistory) - {runspaceId}
        && (runspaceId in old(runspaceExtendedHistory) ==>
             old(runspaceExtendedHistory)[runspaceId].entries == [] && old(runspaceExtendedHistory)[runspaceId].watermark == old(runspaceExtendedHistory[runspaceId].watermark))
      ensures !((availability.Available? || availability.NoAvailability?) && runspaceId in old(runspacesProcessingModuleRemoveEvent)) ==>
        && runspacesProcessingModuleRemoveEvent == old(runspacesProcessingModuleRemoveEvent)
        && availabilityChangedSubscriptions == old(availabilityChangedSubscriptions)
        && runspaceExtendedHistory == old(runspaceExtendedHistory)
      ensures forall id :: id in runspaceExtendedHistory ==>
        && runspaceExtendedHistory[id].entries == old(runspaceExtendedHistory[id].entries)
        && runspaceExtendedHistory[id].watermark == old(runspaceExtendedHistory[id].watermark)
    {
      if (availability.Available? || availability.NoAvailability?) && runspaceId in runspacesProcessingModuleRemoveEvent {
        Unmark(runspaceId);
        if runspaceId in runspaceExtendedHistory {
          KeysWithout(runspaceExtendedHistory, runspaceId);
          DropTable(runspaceId);
        }
      }
    }

    /** As evidently intended: dropping the table also drops the state-change
        subscription that was added with it, so the subscriptions stay balanced. */
    method OnRunspaceAvailabilityChangedBalanced(runspaceId: int, availability: RunspaceAvailability)
      requires Valid()
      modifies this, runspaceExtendedHistory.Values
      ensures Valid()
      ensures old(BalancedSubscriptions()) ==> BalancedSubscriptions()
      ensures maximumEntryCount == old(maximumEntryCount) && maximumItemCountPerEntry == old(maximumItemCountPerEntry)
      ensures (availability.Available? || availability.NoAvailability?) && runspaceId in old(runspacesProcessingModuleRemoveEvent) ==>
        && runspacesProcessingModuleRemoveEvent == Without(old(runspacesProcessingModuleRemoveEvent), runspaceId)
        && availabilityChangedSubscriptions == old(availabilityChangedSubscriptions) - multiset{runspaceId}
        && runspaceExtendedHistory == old(runspaceExtendedHistory) - {runspaceId}
        && (runspaceId in old(runspaceExtendedHistory) ==>
             old(runspaceExtendedHistory)[runspaceId].entries == [] && old(runspaceExtendedHistory)[runspaceId].watermark == old(runspaceExtendedHistory[runspaceId].watermark))
        && stateChangedSubscriptions == old(stateChangedSubscriptions) -
             (if runspaceId in old(runspaceExtendedHistory) then multiset{runspaceId} else multiset{})
      ensures !((availability.Available? || availability.NoAvailability?) && runspaceId in old(runspacesProcessingModuleRemoveEvent)) ==>
        && runspacesProcessingModuleRemoveEvent == old(runspacesProcessingModuleRemoveEvent)
        && availabilityChangedSubscriptions == old(availabilityChangedSubscriptions)
        && runspaceExtendedHistory == old(runspaceExtendedHistory)
        && stateChangedSubscriptions == old(stateChangedSubscriptions)
      ensures forall id :: id in runspaceExtendedHistory ==>
        && runspaceExtendedHistory[id].entries == old(runspaceExtendedHistory[id].entries)
        && runspaceExtendedHistory[id].watermark == old(runspaceExtendedHistory[id].watermark)
    {
      if (availability.Available? || availability.NoAvailability?) && runspaceId in runspacesProcessingModuleRemoveEvent {
        Unmark(runspaceId);
        if runspaceId in runspaceExtendedHistory {
          Unregister(runspaceId);
        }
      }
    }

    /** Unsubscribe a pending runspace from availability changes and unmark it. */
    method Unmark(runspaceId: int)
      requires Valid() && runspaceId in runspacesProcessingModuleRemoveEvent
      modifies this
      ensures Valid()
      ensures runspacesProcessingModuleRemoveEvent == Without(old(runspacesProcessingModuleRemoveEvent), runspaceId)
      ensures availabilityChangedSubscriptions == old(availabilityChangedSubscriptions) - multiset{runspaceId}
      ensures runspaceExtendedHistory == old(runspaceExtendedHistory)
      ensures stateChangedSubscriptions == old(stateChangedSubscriptions)
      ensures maximumEntryCount == old(maximumEntryCount) && maximumItemCountPerEntry == old(maximumItemCountPerEntry)
    {
      ghost var pending := runspacesProcessingModuleRemoveEvent;
      WithoutNoDup(pending, runspaceId);
      WithoutOne(pending, runspaceId);
      RemoveFirstCounts(pending, runspaceId);
      availabilityChangedSubscriptions := availabilityChangedSubscriptions - multiset{runspaceId};
      runspacesProcessingModuleRemoveEvent := RemoveFirst(runspacesProcessingModuleRemoveEvent, runspaceId);
    }

    /** The table of the default runspace, created and subscribed to state changes on
        first use; none without a default runspace. */
    method GetTable(defaultRunspace: Option<int>) returns (table: RunspaceTable?)
      requires Valid()
      modifies this
      ensures Valid()
      ensures old(BalancedSubscriptions()) ==> BalancedSubscriptions()
      ensures runspacesProcessingModuleRemoveEvent == old(runspacesProcessingModuleRemoveEvent)
      ensures availabilityChangedSubscriptions == old(availabilityChangedSubscriptions)
      ensures maximumEntryCount == old(maximumEntryCount) && maximumItemCountPerEntry == old(maximumItemCountPerEntry)
      ensures defaultRunspace.None? ==>
        (&& table == null
         && runspaceExtendedHistory == old(runspaceExtendedHistory)
         && stateChangedSubscriptions == old(stateChangedSubscriptions))
      ensures defaultRunspace.Some? && defaultRunspace.value in old(runspaceExtendedHistory) ==>
        && table == old(runspaceExtendedHistory)[defaultRunspace.value]
        && runspaceExtendedHistory == old(runspaceExtendedHistory)
        && stateChangedSubscriptions == old(stateChangedSubscriptions)
      ensures defaultRunspace.Some? && defaultRunspace.value !in old(runspaceExtendedHistory) ==>
        && table != null && fresh(table) && table.entries == []
        && table.maximumEntryCount == maximumEntryCount && table.maximumItemCountPerEntry == maximumItemCountPerEntry
        && runspaceExtendedHistory == old(runspaceExtendedHistory)[defaultRunspace.value := table]
        && stateChangedSubscriptions == old(stateChangedSubscriptions) + multiset{defaultRunspace.value}
    {
      if defaultRunspace.None? {
        return null;
      }
      var runspaceId := defaultRunspace.value;
      if runspaceId !in runspaceExtendedHistory {
        var created := new RunspaceTable(maximumEntryCount, maximumItemCountPerEntry);
        runspaceExtendedHistory := runspaceExtendedHistory[runspaceId := created];
        stateChangedSubscriptions := stateChangedSubscriptions + multiset{runspaceId};
      }
      table := runspaceExtendedHistory[runspaceId];
    }

    /** Mark the default runspace's table for removal once the runspace is available
        again: a no-op when it is already marked or has no table. */
    method RemoveTable(runspaceId: int)
      requires Valid()
      modifies this
      ensures Valid()
      ensures old(BalancedSubscriptions()) ==> BalancedSubscriptions()
      ensures runspaceExtendedHistory == old(runspaceExtendedHistory)
      ensures stateChangedSubscriptions == old(stateChangedSubscriptions)
      ensures maximumEntryCount == old(maximumEntryCount) && maximumItemCountPerEntry == old(maximumItemCountPerEntry)
      ensures runspaceId !in old(runspacesProcessingModuleRemoveEvent) && runspaceId in runspaceExtendedHistory ==>
        && runspacesProcessingModuleRemoveEvent == old(runspacesProcessingModuleRemoveEvent) + [runspaceId]
        && availabilityChangedSubscriptions == old(availabilityChangedSubscriptions) + multiset{runspaceId}
      ensures !(runspaceId !in old(runspacesProcessingModuleRemoveEvent) && runspaceId in runspaceExtendedHistory) ==>
        && runspacesProcessingModuleRemoveEvent == old(runspacesProcessingModuleRemoveEvent)
        && availabilityChangedSubscriptions == old(availabilityChangedSubscriptions)
    {
      if runspaceId in runspacesProcessingModuleRemoveEvent {
        return;
      }
      if runspaceId in runspaceExtendedHistory {
        AppendNoDup(runspacesProcessingModuleRemoveEvent, runspaceId);
        runspacesProcessingModuleRemoveEvent := runspacesProcessingModuleRemoveEvent + [runspaceId];
        availabilityChangedSubscriptions := availabilityChangedSubscriptions + multiset{runspaceId};
      }
    }

    /** Forward an entry to the default runspace's table; without a default runspace
        or a registered table the entry is discarded (no table is created). */
    method AddEntry(defaultRunspace: Option<int>, e: EntryArgs)
      requires Valid()
      modifies if defaultRunspace.Some? && defaultRunspace.value in runspaceExtendedHistory
               then {runspaceExtendedHistory[defaultRunspace.value]} else {}
      ensures Valid()
      ensures forall id :: id in runspaceExtendedHistory ==>
        runspaceExtendedHistory[id].entries ==
          old(runspaceExtendedHistory[id].entries) + (if defaultRunspace == Some(id) then [e] else [])
      ensures forall id :: id in runspaceExtendedHistory ==>
        runspaceExtendedHistory[id].watermark == old(runspaceExtendedHistory[id].watermark)
    {
      if defaultRunspace.None? {
        return;
      }
      var runspaceId := defaultRunspace.value;
      if runspaceId in runspaceExtendedHistory {
        runspaceExtendedHistory[runspaceId].Add(e);
      }
    }

    /** The Watermark getter: the current table's watermark, -1 without a default
        runspace. Reading it goes through GetTable, so it may create the table, with
        its state-change subscription. */
    method GetWatermark(defaultRunspace: Option<int>) returns (watermark: int)
      requires Valid()
      modifies this
      ensures Valid()
      ensures old(BalancedSubscriptions()) ==> BalancedSubscriptions()
      ensures runspacesProcessingModuleRemoveEvent == old(runspacesProcessingModuleRemoveEvent)
      ensures availabilityChangedSubscriptions == old(availabilityChangedSubscriptions)
      ensures maximumEntryCount == old(maximumEntryCount) && maximumItemCountPerEntry == old(maximumItemCountPerEntry)
      ensures defaultRunspace.None? ==>
        && watermark == -1
        && runspaceExtendedHistory == old(runspaceExtendedHistory)
        && stateChangedSubscriptions == old(stateChangedSubscriptions)
      ensures defaultRunspace.Some? && defaultRunspace.value in old(runspaceExtendedHistory) ==>
        && runspaceExtendedHistory == old(runspaceExtendedHistory)
        && stateChangedSubscriptions == old(stateChangedSubscriptions)
        && watermark == runspaceExtendedHistory[defaultRunspace.value].watermark
      ensures defaultRunspace.Some? && defaultRunspace.value !in old(runspaceExtendedHistory) ==>
        && defaultRunspace.value in runspaceExtendedHistory
        && var table := runspaceExtendedHistory[defaultRunspace.value];
        && fresh(table) && table.entries == [] && watermark == table.watermark
        && table.maximumEntryCount == maximumEntryCount && table.maximumItemCountPerEntry == maximumItemCountPerEntry
        && runspaceExtendedHistory == old(runspaceExtendedHistory)[defaultRunspace.value := table]
        && stateChangedSubscriptions == old(stateChangedSubscriptions) + multiset{defaultRunspace.value}
    {
      var table := GetTable(defaultRunspace);
      watermark := if table != null then table.watermark else -1;
    }

    /** The Watermark setter: set the current table's watermark, nothing without a
        default runspace. It also goes through GetTable, so it may create the table. */
    method SetWatermark(defaultRunspace: Option<int>, value: int)
      requires Valid()
      modifies this, runspaceExtendedHistory.Values
      ensures Valid()
      ensures old(BalancedSubscriptions()) ==> BalancedSubscriptions()
      ensures runspacesProcessingModuleRemoveEvent == old(runspacesProcessingModuleRemoveEvent)
      ensures availabilityChangedSubscriptions == old(availabilityChangedSubscriptions)
      ensures maximumEntryCount == old(maximumEntryCount) && maximumItemCountPerEntry == old(maximumItemCountPerEntry)
      ensures defaultRunspace.None? ==>
        && runspaceExtendedHistory == old(runspaceExtendedHistory)
        && stateChangedSubscriptions == old(stateChangedSubscriptions)
      ensures defaultRunspace.Some? && defaultRunspace.value in old(runspaceExtendedHistory) ==>
        && runspaceExtendedHistory == old(runspaceExtendedHistory)
        && stateChangedSubscriptions == old(stateChangedSubscriptions)
      ensures defaultRunspace.Some? && defaultRunspace.value !in old(runspaceExtendedHistory) ==>
        && defaultRunspace.value in runspaceExtendedHistory
        && var table := runspaceExtendedHistory[defaultRunspace.value];
        && fresh(table) && table.entries == []
        && table.maximumEntryCount == maximumEntryCount && table.maximumItemCountPerEntry == maximumItemCountPerEntry
        && runspaceExtendedHistory == old(runspaceExtendedHistory)[defaultRunspace.value := table]
        && stateChangedSubscriptions == old(stateChangedSubscriptions) + multiset{defaultRunspace.value}
      ensures defaultRunspace.Some? ==>
        (defaultRunspace.value in runspaceExtendedHistory
         && runspaceExtendedHistory[defaultRunspace.value].watermark == value)
      ensures forall id :: id in old(runspaceExtendedHistory) ==>
        (&& id in runspaceExtendedHistory
         && runspaceExtendedHistory[id] == old(runspaceExtendedHistory[id])
         && runspaceExtendedHistory[id].entries == old(runspaceExtendedHistory[id].entries)
         && (defaultRunspace != Some(id) ==> runspaceExtendedHistory[id].watermark == old(runspaceExtendedHistory[id].watermark)))
    {
      var table := GetTable(defaultRunspace);
      if table != null {
        assert runspaceExtendedHistory[defaultRunspace.value] == table;
        forall id | id in runspaceExtendedHistory && id != defaultRunspace.value
          ensures runspaceExtendedHistory[id] != table
        {
          assert DistinctTables();
        }
        table.watermark := value;
      }
    }
  }

  /** As written: importing the module, removing it, the runspace becoming available,
      and importing again leaves the runspace subscribed to state changes twice. */
  method ReimportDoublesSubscription() returns (subscriptions: nat)
    ensures subscriptions == 2
  {
    var m := new ExtendedHistoryManager();
    var t := m.GetTable(Some(1));
    m.RemoveTable(1);
    m.OnRunspaceAvailabilityChanged(1, Available);
    assert m.stateChangedSubscriptions == multiset{1};
    t := m.GetTable(Some(1));
    subscriptions := m.stateChangedSubscriptions[1];
  }

  /** With the balanced handler the same sequence leaves one subscription. */
  method ReimportKeepsOneSubscription() returns (subscriptions: nat)
    ensures subscriptions == 1
  {
    var m := new ExtendedHistoryManager();
    var t := m.GetTable(Some(1));
    m.RemoveTable(1);
    m.OnRunspaceAvailabilityChangedBalanced(1, Available);
    t := m.GetTable(Some(1));
    assert m.BalancedSubscriptions();
    subscriptions := m.stateChangedSubscriptions[1];
  }

  /** Remove the first occurrence of `x`, as List.Remove does. */
  function RemoveFirst(s: seq<int>, x: int): (r: seq<int>)
    ensures x !in s ==> r == s
    ensures x in s ==> |r| == |s| - 1
  {
    if s == [] then []
    else if s[0] == x then s[1..]
    else [s[0]] + RemoveFirst(s[1..], x)
  }

  /** Removing the first occurrence removes one occurrence from the count. */
  lemma {:induction false} RemoveFirstCounts(s: seq<int>, x: int)
    ensures multiset(RemoveFirst(s, x)) == multiset(s) - multiset{x}
  {
    if s != [] {
      assert s == [s[0]] + s[1..];
      if s[0] != x {
        RemoveFirstCounts(s[1..], x);
      }
    }
  }

  /** Dropping a present key drops one occurrence from the keys' multiset. */
  lemma KeysWithout<V>(m: map<int, V>, k: int)
    requires k in m
    ensures multiset((m - {k}).Keys) == multiset(m.Keys) - multiset{k}
  {
    assert m.Keys == (m - {k}).Keys + {k};
  }

  /** In a duplicate-free list, removing the first occurrence removes every one. */
  lemma {:induction false} WithoutOne(s: seq<int>, x: int)
    requires NoDup(s)
    ensures RemoveFirst(s, x) == Without(s, x)
  {
    if s != [] {
      SuffixNoDup(s, 1);
      WithoutOne(s[1..], x);
      if s[0] == x {
        WithoutHead(s);
      }
    }
  }

  // ---------------------------------------------------------------------------
  // Extending a history object for display

  datatype PipelineState = NotStarted | Running | Stopping | Stopped | Completed | Failed | Disconnected

  /** The type name that marks an extended history object. */
  const ExtendedTypeName: string := "Microsoft.PowerShell.Commands.HistoryInfo#Extended"

  /** The Success property: false for a failed command; otherwise the recorded flag
      when the table has a record (whose flag must be set, the cast of null throws),
      and "completed" when it has none. */
  function Success(status: PipelineState, recorded: Option<Option<bool>>): (r: bool)
    requires status != Failed && recorded.Some? ==> recorded.value.Some?
    ensures r ==> status != Failed
    ensures r && recorded.None? ==> status == Completed
    ensures status != Failed && recorded.Some? ==> r == recorded.value.value
    ensures status == Completed && recorded.None? ==> r
  {
    if status == Failed then false
    else if recorded.Some? then recorded.value.value
    else status == Completed
  }

  /** The OutputCount property: the recorded count when it is positive, null
      otherwise (a lifted comparison with null is false). */
  function OutputCountMember(recordedCount: Option<int>): (r: Option<int>)
    ensures r.Some? <==> recordedCount.Some? && recordedCount.value > 0
    ensures r.Some? ==> r == recordedCount
  {
    if recordedCount.Some? && recordedCount.value > 0 then recordedCount else None
  }

  /** ExtendHistoryInfoObject's effect on the object's type names: a history object
      gains the extended type name in front; anything else passes through unchanged. */
  function ExtendHistoryInfoObject(item: PSObject): (r: PSObject)
    ensures !item.baseObject.HistoryInfoObject? ==> r == item
    ensures item.baseObject.HistoryInfoObject? ==>
      r.baseObject == item.baseObject && r.typeNames == [ExtendedTypeName] + item.typeNames
  {
    if item.baseObject.HistoryInfoObject? then item.(typeNames := [ExtendedTypeName] + item.typeNames)
    else item
  }

  /** Under the default settings, an extended history object is never captured into
      the "last result" variable. */
  lemma ExtendedObjectsNotCaptured(item: PSObject)
    requires item.baseObject.HistoryInfoObject?
    ensures !Admitted(Default().excludedTypes, ExtendHistoryInfoObject(item).typeNames)
  {
    assert DefaultExcludedTypes[12] == ExtendedTypeName;
    ListedNotAdmitted(Default().excludedTypes, ExtendHistoryInfoObject(item).typeNames, 0);
  }
}
