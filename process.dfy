/**
 * `process` over mutable state: a `FeedState` object whose records dictionary
 * one run updates in place, and the durable store its `load` reads and its
 * `save` overwrites. Each step of the run is a method proved against the
 * function in module Transitions that specifies it.
 */
module FeedStore {
  import opened Models
  import opened Transitions

  /** A feed's identity in the store: its source and its name. */
  type FeedId = (string, string)

  /** The durable store behind `FeedState.load` and `FeedState.save`: one whole document per feed. */
  class StateStore {
    var documents: map<FeedId, FeedDocument>
    /** The feed of each `save` call, in call order. */
    var saves: seq<FeedId>

    ghost predicate Valid()
      reads this
    {
      forall id | id in documents :: KeysConsistent(documents[id].records)
    }

    constructor (documents: map<FeedId, FeedDocument>)
      requires forall id | id in documents :: KeysConsistent(documents[id].records)
      ensures Valid() && this.documents == documents && saves == []
    {
      this.documents := documents;
      saves := [];
    }
  }

  /** The state of one feed during a run (`FeedState`). */
  class FeedState {
    const source: string
    const feedName: string
    /** The effect of `exit` on one record. */
    const exitRecord: ExitPolicy
    var url: string
    var records: Records
    var lastChecked: Option<Time>
    /** The key of each `exit` call, in call order. */
    var exited: seq<string>

    ghost predicate Valid()
      reads this
    {
      KeysConsistent(records)
    }

    function Id(): FeedId {
      (source, feedName)
    }

    /** The part of the state that `save` persists. */
    function Document(): FeedDocument
      reads this
    {
      FeedDocument(url, records, lastChecked)
    }

    constructor (source: string, feedName: string, exitRecord: ExitPolicy)
      ensures this.source == source && this.feedName == feedName && this.exitRecord == exitRecord
      ensures url == "" && records == map[] && lastChecked == None && exited == []
      ensures Valid()
    {
      this.source := source;
      this.feedName := feedName;
      this.exitRecord := exitRecord;
      url := "";
      records := map[];
      lastChecked := None;
      exited := [];
    }

    /** `load()`: fills the state from the stored document, if there is one, and says whether there was. */
    method Load(store: StateStore) returns (found: bool)
      requires store.Valid()
      modifies this
      ensures found == (Id() in store.documents)
      ensures found ==> Document() == store.documents[Id()] && Valid()
      ensures !found ==> Document() == old(Document())
      ensures exited == old(exited)
    {
      found := Id() in store.documents;
      if found {
        var d := store.documents[Id()];
        url, records, lastChecked := d.url, d.records, d.lastChecked;
      }
    }

    /** `save()`: replaces the stored document of this feed with the whole state. */
    method Save(store: StateStore)
      requires Valid() && store.Valid()
      modifies store
      ensures store.Valid()
      ensures store.documents == old(store.documents)[Id() := Document()]
      ensures store.saves == old(store.saves) + [Id()]
    {
      store.documents := store.documents[Id() := Document()];
      store.saves := store.saves + [Id()];
    }

    /** `exit(key)`: applies the exit effect to that key's record, and to nothing else. */
    method Exit(key: string)
      requires key in records
      modifies this
      ensures records == old(records)[key := exitRecord(old(records)[key])]
      ensures exited == old(exited) + [key]
      ensures url == old(url) && lastChecked == old(lastChecked)
      ensures old(Valid()) ==> Valid()
    {
      records := records[key := exitRecord(records[key])];
      exited := exited + [key];
    }
  }

  /** `log` names each key of `keys` exactly once. */
  predicate Listing(log: seq<string>, keys: set<string>) {
    && (forall i, j | 0 <= i < j < |log| :: log[i] != log[j])
    && (set k | k in log) == keys
  }

  /** Step 0: the URL comes from the configuration and every feed record starts out current. */
  method BootstrapStep(state: FeedState, feed: FeedConfig, feedItems: seq<Intel>)
    modifies state
    ensures state.url == feed.url && state.records == Bootstrap(feedItems)
    ensures state.lastChecked == old(state.lastChecked) && state.exited == old(state.exited)
    ensures state.Valid()
  {
    state.url := feed.url;
    state.records := map[];
    for i := 0 to |feedItems|
      invariant state.records == Bootstrap(feedItems[..i])
      invariant state.url == feed.url
      invariant state.lastChecked == old(state.lastChecked) && state.exited == old(state.exited)
    {
      assert feedItems[..i + 1][..i] == feedItems[..i];
      var item := feedItems[i];
      state.records := state.records[item.address := FeedStateItem(
        key := item.address,
        data := item,
        dataModel := DataModel,
        firstSeen := item.lastSeen,
        current := true,
        entrances := [],
        exits := [])];
    }
    assert feedItems[..|feedItems|] == feedItems;
  }

  /** Logging one more key, not logged before, lists one more key. */
  lemma ListingSnoc(log: seq<string>, keys: set<string>, k: string)
    requires Listing(log, keys) && k !in keys
    ensures Listing(log + [k], keys + {k})
  {
  }

  /** Step 1: `exit` is called once for every stored key missing from the feed index, and for no other key. */
  method ExitStep(state: FeedState, feedIndex: set<string>)
    requires state.Valid()
    modifies state
    ensures state.Valid()
    ensures state.records == ExitAbsent(old(state.records), feedIndex, state.exitRecord)
    ensures |state.exited| >= |old(state.exited)| && state.exited[..|old(state.exited)|] == old(state.exited)
    ensures Listing(state.exited[|old(state.exited)|..], old(state.records).Keys - feedIndex)
    ensures state.url == old(state.url) && state.lastChecked == old(state.lastChecked)
  {
    ghost var start := state.records;
    ghost var log := state.exited;
    ghost var added: seq<string> := [];
    var keys := state.records.Keys;
    while keys != {}
      invariant keys <= start.Keys
      invariant state.records.Keys == start.Keys
      invariant forall k | k in start ::
        state.records[k] == if k in keys || k in feedIndex then start[k] else state.exitRecord(start[k])
      invariant state.exited == log + added
      invariant Listing(added, (start.Keys - keys) - feedIndex)
      invariant state.url == old(state.url) && state.lastChecked == old(state.lastChecked)
      decreases keys
    {
      var k :| k in keys;
      ghost var done := (start.Keys - keys) - feedIndex;
      if k !in feedIndex {
        ListingSnoc(added, done, k);
        state.Exit(k);
        added := added + [k];
        assert (start.Keys - (keys - {k})) - feedIndex == done + {k};
      } else {
        assert (start.Keys - (keys - {k})) - feedIndex == done;
      }
      keys := keys - {k};
    }
    assert state.records == ExitAbsent(start, feedIndex, state.exitRecord);
    assert state.exited[|log|..] == added;
  }

  /** Step 2: each feed record enters unless its key is current already; the entrants are returned in feed order. */
  method EntranceStep(state: FeedState, feedItems: seq<Intel>, now: Time) returns (entrants: seq<FeedStateItem>)
    modifies state
    ensures Entered(state.records, entrants) == Enter(old(state.records), feedItems, now)
    ensures state.url == old(state.url) && state.lastChecked == old(state.lastChecked) && state.exited == old(state.exited)
  {
    entrants := [];
    for i := 0 to |feedItems|
      invariant Entered(state.records, entrants) == Enter(old(state.records), feedItems[..i], now)
      invariant state.url == old(state.url) && state.lastChecked == old(state.lastChecked) && state.exited == old(state.exited)
    {
      assert feedItems[..i + 1][..i] == feedItems[..i];
      var feedItem := feedItems[i];
      var item: FeedStateItem;
      if feedItem.address in state.records {
        item := state.records[feedItem.address];
        if item.current {
          continue;
        }
        item := item.(current := true, entrances := item.entrances + [now]);
      } else {
        item := FeedStateItem(
          key := feedItem.address,
          data := feedItem,
          dataModel := DataModel,
          firstSeen := now,
          current := true,
          entrances := [now],
          exits := []);
      }
      state.records := state.records[item.key := item];
      entrants := entrants + [item];
    }
    assert feedItems[..|feedItems|] == feedItems;
  }

  /**
   * `process(feed, feed_items)`: loads the feed's state (or bootstraps it),
   * exits the stored keys missing from the feed, admits the entrants, stamps
   * `last_checked` and saves once. The state object is returned beside the
   * entrants so that its `exit` calls can be stated.
   */
  method Process(feed: FeedConfig, feedItems: seq<Intel>, store: StateStore, exitRecord: ExitPolicy, now: Time)
    returns (entrants: seq<FeedStateItem>, state: FeedState)
    requires store.Valid()
    modifies store
    ensures fresh(state) && store.Valid()
    ensures var id := (feed.source, feed.name);
      var prior := if id in old(store.documents) then Some(old(store.documents)[id]) else None;
      var run := Run(prior, feed.url, feedItems, exitRecord, now);
      && store.documents == old(store.documents)[id := run.document]
      && entrants == run.entrants
      && Listing(state.exited, Start(prior, feed.url, feedItems).records.Keys - FeedIndex(feedItems))
    ensures store.saves == old(store.saves) + [(feed.source, feed.name)]
  {
    ghost var id := (feed.source, feed.name);
    ghost var prior := if id in store.documents then Some(store.documents[id]) else None;
    state := new FeedState(feed.source, feed.name, exitRecord);
    var loaded := state.Load(store);
    if !loaded {
      BootstrapStep(state, feed, feedItems);
    }
    assert state.Document() == Start(prior, feed.url, feedItems);
    ghost var startRecords := state.records;

    var feedIndex: set<string> := {};
    for i := 0 to |feedItems|
      invariant feedIndex == FeedIndex(feedItems[..i])
      modifies {}
    {
      FeedIndexSnoc(feedItems[..i + 1]);
      assert feedItems[..i + 1][..i] == feedItems[..i];
      feedIndex := feedIndex + {feedItems[i].address};
    }
    assert feedItems[..|feedItems|] == feedItems;

    ExitStep(state, feedIndex);
    assert state.exited[0..] == state.exited;
    ghost var exitedRecords := state.records;
    entrants := EntranceStep(state, feedItems, now);
    EnterFrame(exitedRecords, feedItems, now);

    state.lastChecked := Some(now);
    state.Save(store);
  }
}
