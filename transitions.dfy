/**
 * What one run of `process` does to a feed's tracking records, as functions of
 * the records it starts from: step 0 (bootstrap when nothing was loaded),
 * step 1 (exit every stored key that is not in the feed), step 2 (admit the
 * feed's entrants) and step 3 (stamp `last_checked`). The lemmas state the
 * guarantees of a run: records are never dropped, every feed key ends current,
 * each key enters at most once per run, the entrants are exactly the feed keys
 * that were not current, a bootstrap run has no entrants, and a repeated run
 * is quiet.
 */
module Transitions {
  import opened Models

  /**
   * What `FeedState.exit(key)` does to the record it is called for. Its body is
   * not part of this model: the only thing assumed of it is that the record
   * stays filed under its own key.
   */
  type ExitPolicy = f: FeedStateItem -> FeedStateItem | KeepsKey(f)
    witness (r: FeedStateItem) => r

  /** An exit effect leaves each record filed under its own key. */
  ghost predicate KeepsKey(f: FeedStateItem -> FeedStateItem) {
    forall r :: f(r).key == r.key
  }

  /** The keys of the feed's records (`feed_index`). */
  function FeedIndex(items: seq<Intel>): set<string> {
    set it | it in items :: it.address
  }

  lemma FeedIndexSnoc(items: seq<Intel>)
    requires items != []
    ensures FeedIndex(items) == FeedIndex(items[..|items| - 1]) + {items[|items| - 1].address}
  {
  }

  /** A record made current by `it`, first seen at `firstSeen`, with the given entrances and no exits. */
  function NewItem(it: Intel, firstSeen: Time, entrances: seq<Time>): FeedStateItem {
    FeedStateItem(it.address, it, DataModel, firstSeen, true, entrances, [])
  }

  /**
   * Step 0: the records built when no state could be loaded, one per feed key
   * (a later duplicate line replaces an earlier one), all current, first seen
   * when their line was parsed, with no entrances and no exits.
   */
  function Bootstrap(items: seq<Intel>): (records: Records)
    ensures records.Keys == FeedIndex(items)
    ensures KeysConsistent(records)
    ensures forall k | k in records :: records[k].current && records[k].entrances == [] && records[k].exits == []
  {
    if items == [] then map[]
    else
      var it := items[|items| - 1];
      FeedIndexSnoc(items);
      Bootstrap(items[..|items| - 1])[it.address := NewItem(it, it.lastSeen, [])]
  }

  /**
   * The record bootstrapped for the address of the last feed line with that
   * address holds that line's data and was first seen when that line was parsed.
   */
  lemma {:induction false} BootstrapFromLastLine(items: seq<Intel>, i: nat)
    requires i < |items|
    requires forall j | i < j < |items| :: items[j].address != items[i].address
    ensures items[i].address in Bootstrap(items)
    ensures Bootstrap(items)[items[i].address].data == items[i]
    ensures Bootstrap(items)[items[i].address].firstSeen == items[i].lastSeen
  {
    var n := |items| - 1;
    var init := items[..n];
    assert Bootstrap(items) == Bootstrap(init)[items[n].address := NewItem(items[n], items[n].lastSeen, [])];
    if i < n {
      assert forall j | i < j < |init| :: init[j] == items[j];
      BootstrapFromLastLine(init, i);
      assert init[i] == items[i];
    }
  }

  /** Step 1: every stored key missing from the feed index goes through `exit`; the others are untouched. */
  function ExitAbsent(records: Records, index: set<string>, exitRecord: ExitPolicy): (r: Records)
    ensures r.Keys == records.Keys
    ensures KeysConsistent(records) ==> KeysConsistent(r)
    ensures forall k | k in records && k in index :: r[k] == records[k]
  {
    map k | k in records :: if k in index then records[k] else exitRecord(records[k])
  }

  /** The state of step 2's loop: the records so far and the entrants collected so far. */
  datatype Entered = Entered(records: Records, entrants: seq<FeedStateItem>)

  /** A record that was not current, entering again at `now`. */
  function Reentered(item: FeedStateItem, now: Time): FeedStateItem {
    item.(current := true, entrances := item.entrances + [now])
  }

  /** Step 2 for one feed record: skip a current key, re-enter a stored one, create a new one. */
  function Admit(e: Entered, it: Intel, now: Time): Entered {
    if it.address in e.records then
      var item := e.records[it.address];
      if item.current then e
      else
        var item' := Reentered(item, now);
        Entered(e.records[item'.key := item'], e.entrants + [item'])
    else
      var item' := NewItem(it, now, [now]);
      Entered(e.records[item'.key := item'], e.entrants + [item'])
  }

  /** Step 2 over the whole feed, in feed order. */
  function Enter(records: Records, items: seq<Intel>, now: Time): Entered {
    if items == [] then Entered(records, [])
    else Admit(Enter(records, items[..|items| - 1], now), items[|items| - 1], now)
  }

  /** The document a run starts from: the loaded one, or the bootstrap built from the feed. */
  function Start(prior: Option<FeedDocument>, feedUrl: string, items: seq<Intel>): FeedDocument {
    match prior
    case Some(d) => d
    case None => FeedDocument(feedUrl, Bootstrap(items), None)
  }

  predicate WellFormed(prior: Option<FeedDocument>) {
    prior.Some? ==> KeysConsistent(prior.value.records)
  }

  /** What a run persists, and the entrants it returns. */
  datatype RunResult = RunResult(document: FeedDocument, entrants: seq<FeedStateItem>)

  /** One run of `process` against the document loaded for the feed (None when nothing loads). */
  function Run(prior: Option<FeedDocument>, feedUrl: string, items: seq<Intel>, exitRecord: ExitPolicy, now: Time): RunResult {
    var start := Start(prior, feedUrl, items);
    var entered := Enter(ExitAbsent(start.records, FeedIndex(items), exitRecord), items, now);
    RunResult(FeedDocument(start.url, entered.records, Some(now)), entered.entrants)
  }

  /** The keys of a run's entrants. */
  function EntrantKeys(entrants: seq<FeedStateItem>): set<string> {
    set e | e in entrants :: e.key
  }

  /** The feed keys that must enter: those with no record, or whose record is not current. */
  function Entering(records: Records, index: set<string>): set<string> {
    set k | k in index && (k !in records || !records[k].current)
  }

  predicate DistinctKeys(entrants: seq<FeedStateItem>) {
    forall i, j | 0 <= i < j < |entrants| :: entrants[i].key != entrants[j].key
  }

  // ------------------------------------------------------------------ step 2

    /** One admission: the feed line's key ends up current and no other record changes; only a key that was not current enters. */
  lemma AdmitStep(e: Entered, it: Intel, now: Time)
    requires KeysConsistent(e.records)
    ensures var e' := Admit(e, it, now);
      && KeysConsistent(e'.records)
      && e'.records.Keys == e.records.Keys + {it.address}
      && e'.records[it.address].current
      && (forall k | k in e.records && k != it.address :: e'.records[k] == e.records[k])
      && (it.address in e.records && e.records[it.address].current ==> e' == e)
      && (!(it.address in e.records && e.records[it.address].current) ==>
            e'.entrants == e.entrants + [e'.records[it.address]] && e'.records[it.address].key == it.address)
  {
  }

/**
   * Step 2 keeps every record, adds one for each new feed key, leaves every
   * record current, and does not touch a record that is current already or that
   * is not in the feed.
   */
  lemma {:induction false} EnterFrame(records: Records, items: seq<Intel>, now: Time)
    requires KeysConsistent(records)
    ensures var e := Enter(records, items, now);
      && KeysConsistent(e.records)
      && e.records.Keys == records.Keys + FeedIndex(items)
      && (forall k | k in FeedIndex(items) :: e.records[k].current)
      && (forall k | k in records && (k !in FeedIndex(items) || records[k].current) :: e.records[k] == records[k])
  {
    if items != [] {
      var init := items[..|items| - 1];
      EnterFrame(records, init, now);
      FeedIndexSnoc(items);
      AdmitStep(Enter(records, init, now), items[|items| - 1], now);
    }
  }

  lemma EntrantKeysSnoc(entrants: seq<FeedStateItem>, item: FeedStateItem)
    ensures EntrantKeys(entrants + [item]) == EntrantKeys(entrants) + {item.key}
  {
    assert forall x | x in entrants + [item] :: x in entrants || x == item;
  }

  /** Growing the index by one key adds that key to the entering keys exactly when it has no current record. */
  lemma EnteringGrow(records: Records, index: set<string>, k: string)
    ensures Entering(records, index + {k}) ==
      Entering(records, index) + (if k !in records || !records[k].current then {k} else {})
  {
  }

  /** The inductive step of `EnterEntrants`: one admission keeps its three facts, over an index grown by one key. */
  lemma AdmitEntrants(records: Records, index: set<string>, prev: Entered, it: Intel, now: Time)
    requires KeysConsistent(prev.records)
    requires prev.records.Keys == records.Keys + index
    requires forall k | k in index :: prev.records[k].current
    requires forall k | k in records && k !in index :: prev.records[k] == records[k]
    requires DistinctKeys(prev.entrants)
    requires EntrantKeys(prev.entrants) == Entering(records, index)
    requires forall j | 0 <= j < |prev.entrants| ::
      prev.entrants[j].key in prev.records && prev.records[prev.entrants[j].key] == prev.entrants[j]
    ensures var e := Admit(prev, it, now);
      && DistinctKeys(e.entrants)
      && EntrantKeys(e.entrants) == Entering(records, index + {it.address})
      && (forall j | 0 <= j < |e.entrants| :: e.entrants[j].key in e.records && e.records[e.entrants[j].key] == e.entrants[j])
  {
    var k := it.address;
    EnteringGrow(records, index, k);
    AdmitStep(prev, it, now);
    if !(k in prev.records && prev.records[k].current) {
      AdmitNewEntrant(records, index, prev, it, now);
    }
  }

  /** An admission that enters its key: the new entrant's key was in no earlier entrant, and its record is the entrant. */
  lemma AdmitNewEntrant(records: Records, index: set<string>, prev: Entered, it: Intel, now: Time)
    requires KeysConsistent(prev.records)
    requires forall k | k in index :: k in prev.records && prev.records[k].current
    requires !(it.address in prev.records && prev.records[it.address].current)
    requires DistinctKeys(prev.entrants)
    requires EntrantKeys(prev.entrants) == Entering(records, index)
    requires forall j | 0 <= j < |prev.entrants| ::
      prev.entrants[j].key in prev.records && prev.records[prev.entrants[j].key] == prev.entrants[j]
    ensures var e := Admit(prev, it, now);
      && DistinctKeys(e.entrants)
      && EntrantKeys(e.entrants) == EntrantKeys(prev.entrants) + {it.address}
      && (forall j | 0 <= j < |e.entrants| :: e.entrants[j].key in e.records && e.records[e.entrants[j].key] == e.entrants[j])
  {
    var k := it.address;
    var e := Admit(prev, it, now);
    AdmitStep(prev, it, now);
    var item' := e.records[k];
    assert e.entrants == prev.entrants + [item'];
    EntrantKeysSnoc(prev.entrants, item');
    forall j | 0 <= j < |prev.entrants| ensures prev.entrants[j].key != k {
      assert prev.entrants[j].key in EntrantKeys(prev.entrants);
    }
    forall a, b | 0 <= a < b < |e.entrants|
      ensures e.entrants[a].key != e.entrants[b].key
    {
      assert e.entrants[a] == prev.entrants[a];
      if b < |prev.entrants| {
        assert e.entrants[b] == prev.entrants[b];
      }
    }
    forall j | 0 <= j < |e.entrants|
      ensures e.entrants[j].key in e.records && e.records[e.entrants[j].key] == e.entrants[j]
    {
      if j < |prev.entrants| {
        assert e.entrants[j] == prev.entrants[j];
      }
    }
  }

  /**
   * Each key enters at most once per run, the entrants are exactly the feed keys
   * that were absent or not current, and every entrant is the record the run
   * leaves for its key.
   */
  lemma {:induction false} EnterEntrants(records: Records, items: seq<Intel>, now: Time)
    requires KeysConsistent(records)
    ensures var e := Enter(records, items, now);
      && DistinctKeys(e.entrants)
      && EntrantKeys(e.entrants) == Entering(records, FeedIndex(items))
      && (forall j | 0 <= j < |e.entrants| :: e.entrants[j].key in e.records && e.records[e.entrants[j].key] == e.entrants[j])
  {
    if items != [] {
      var init := items[..|items| - 1];
      EnterEntrants(records, init, now);
      EnterFrame(records, init, now);
      FeedIndexSnoc(items);
      AdmitEntrants(records, FeedIndex(init), Enter(records, init, now), items[|items| - 1], now);
    }
  }

  /** A stored key that is not current and is in the feed becomes current with one more entrance and the same exits. */
  lemma {:induction false} EnterReentry(records: Records, items: seq<Intel>, now: Time, k: string)
    requires KeysConsistent(records)
    requires k in FeedIndex(items) && k in records && !records[k].current
    ensures k in Enter(records, items, now).records
    ensures Enter(records, items, now).records[k] == Reentered(records[k], now)
  {
    var init := items[..|items| - 1];
    var it := items[|items| - 1];
    FeedIndexSnoc(items);
    EnterFrame(records, init, now);
    var prev := Enter(records, init, now);
    if k in FeedIndex(init) {
      EnterReentry(records, init, now, k);
    } else {
      assert it.address == k && prev.records[k] == records[k];
    }
  }

  /** A feed key with no record gets a new current record from its first feed line, with the run's time as its one entrance. */
  lemma {:induction false} EnterNewKey(records: Records, items: seq<Intel>, now: Time, k: string)
    requires KeysConsistent(records)
    requires k in FeedIndex(items) && k !in records
    ensures k in Enter(records, items, now).records
    ensures exists i :: && 0 <= i < |items| && items[i].address == k
                        && (forall j :: 0 <= j < i ==> items[j].address != k)
                        && Enter(records, items, now).records[k] == NewItem(items[i], now, [now])
  {
    var init := items[..|items| - 1];
    var it := items[|items| - 1];
    FeedIndexSnoc(items);
    EnterFrame(records, init, now);
    var prev := Enter(records, init, now);
    assert Enter(records, items, now) == Admit(prev, it, now);
    if k in FeedIndex(init) {
      EnterNewKey(records, init, now, k);
      var i :| 0 <= i < |init| && init[i].address == k
        && (forall j :: 0 <= j < i ==> init[j].address != k)
        && prev.records[k] == NewItem(init[i], now, [now]);
      assert Enter(records, items, now).records[k] == prev.records[k];
      assert items[i] == init[i];
      assert forall j :: 0 <= j < i ==> items[j] == init[j];
    } else {
      assert it.address == k && k !in prev.records;
      assert Enter(records, items, now).records[k] == NewItem(it, now, [now]);
      forall j | 0 <= j < |init|
        ensures items[j].address != k
      {
        assert items[j] == init[j] && init[j] in init;
      }
      assert items[|init|] == it;
    }
  }

  /** When every feed key is stored and current, step 2 changes nothing and has no entrants. */
  lemma {:induction false} EnterAllCurrent(records: Records, items: seq<Intel>, now: Time)
    requires forall k | k in FeedIndex(items) :: k in records && records[k].current
    ensures Enter(records, items, now) == Entered(records, [])
  {
    if items != [] {
      FeedIndexSnoc(items);
      EnterAllCurrent(records, items[..|items| - 1], now);
    }
  }

  /** Distinct keys make as many keys as entrants. */
  lemma {:induction false} DistinctKeysCount(entrants: seq<FeedStateItem>)
    requires DistinctKeys(entrants)
    ensures |EntrantKeys(entrants)| == |entrants|
  {
    if entrants != [] {
      var init := entrants[..|entrants| - 1];
      var last := entrants[|entrants| - 1];
      assert entrants == init + [last];
      DistinctKeysCount(init);
      assert EntrantKeys(entrants) == EntrantKeys(init) + {last.key};
      forall e | e in init ensures e.key != last.key {
        var j :| 0 <= j < |init| && init[j] == e;
        assert entrants[j] == e;
      }
    }
  }

  // ------------------------------------------------------------------ runs

  /** Step 0 builds records that are all current, so a bootstrap run reports no entrants and persists the bootstrap records. */
  lemma BootstrapYieldsNoEntrants(feedUrl: string, items: seq<Intel>, exitRecord: ExitPolicy, now: Time)
    ensures Run(None, feedUrl, items, exitRecord, now).entrants == []
    ensures Run(None, feedUrl, items, exitRecord, now).document == FeedDocument(feedUrl, Bootstrap(items), Some(now))
  {
    var records := Bootstrap(items);
    var exited := ExitAbsent(records, FeedIndex(items), exitRecord);
    assert exited == records;
    EnterAllCurrent(records, items, now);
  }

  /**
   * Across a run, no record is dropped and each feed key has one: the records
   * are those the run started from plus the new feed keys, all feed keys are
   * current, `last_checked` is the run's time and the URL is kept.
   */
  lemma RunKeepsRecords(prior: Option<FeedDocument>, feedUrl: string, items: seq<Intel>, exitRecord: ExitPolicy, now: Time)
    requires WellFormed(prior)
    ensures var start := Start(prior, feedUrl, items);
      var doc := Run(prior, feedUrl, items, exitRecord, now).document;
      && KeysConsistent(doc.records)
      && doc.records.Keys == start.records.Keys + FeedIndex(items)
      && (forall k | k in FeedIndex(items) :: doc.records[k].current)
      && doc.lastChecked == Some(now)
      && doc.url == start.url
  {
    var start := Start(prior, feedUrl, items);
    EnterFrame(ExitAbsent(start.records, FeedIndex(items), exitRecord), items, now);
  }

  /**
   * What a run does to each stored record: a key missing from the feed has gone
   * through `exit` (whatever its current flag); a feed key that was current is
   * unchanged; a feed key that was not current is current again with one more
   * entrance and the same exits.
   */
  lemma RunRecordOutcome(prior: Option<FeedDocument>, feedUrl: string, items: seq<Intel>, exitRecord: ExitPolicy, now: Time, k: string)
    requires WellFormed(prior)
    requires k in Start(prior, feedUrl, items).records
    ensures k in Run(prior, feedUrl, items, exitRecord, now).document.records
    ensures var before := Start(prior, feedUrl, items).records[k];
      var after := Run(prior, feedUrl, items, exitRecord, now).document.records[k];
      && (k !in FeedIndex(items) ==> after == exitRecord(before))
      && (k in FeedIndex(items) && before.current ==> after == before)
      && (k in FeedIndex(items) && !before.current ==>
            after.current && after.entrances == before.entrances + [now] && after.exits == before.exits)
  {
    var start := Start(prior, feedUrl, items);
    var index := FeedIndex(items);
    var exited := ExitAbsent(start.records, index, exitRecord);
    var e := Enter(exited, items, now);
    assert Run(prior, feedUrl, items, exitRecord, now).document.records == e.records;
    EnterFrame(exited, items, now);
    if k !in index {
      assert exited[k] == exitRecord(start.records[k]);
      assert e.records[k] == exited[k];
    } else if start.records[k].current {
      assert e.records[k] == exited[k] == start.records[k];
    } else {
      assert exited[k] == start.records[k];
      EnterReentry(exited, items, now, k);
    }
  }

  /**
   * The entrants of a run: one per key at most, exactly the feed keys that had
   * no record or a record that was not current (so as many entrants as such
   * keys), each equal to the record the run persists for it.
   */
  lemma RunEntrants(prior: Option<FeedDocument>, feedUrl: string, items: seq<Intel>, exitRecord: ExitPolicy, now: Time)
    requires WellFormed(prior)
    ensures var start := Start(prior, feedUrl, items);
      var r := Run(prior, feedUrl, items, exitRecord, now);
      && DistinctKeys(r.entrants)
      && EntrantKeys(r.entrants) == Entering(start.records, FeedIndex(items))
      && |r.entrants| == |Entering(start.records, FeedIndex(items))|
      && (forall j | 0 <= j < |r.entrants| ::
            r.entrants[j].key in r.document.records && r.document.records[r.entrants[j].key] == r.entrants[j])
  {
    var start := Start(prior, feedUrl, items);
    var index := FeedIndex(items);
    var exited := ExitAbsent(start.records, index, exitRecord);
    EnterEntrants(exited, items, now);
    assert Entering(exited, index) == Entering(start.records, index);
    DistinctKeysCount(Run(prior, feedUrl, items, exitRecord, now).entrants);
  }

  /** A feed key with no record enters with a new record taken from its first line: current, one entrance, no exits. */
  lemma RunNewKey(prior: Option<FeedDocument>, feedUrl: string, items: seq<Intel>, exitRecord: ExitPolicy, now: Time, k: string)
    requires WellFormed(prior)
    requires k in FeedIndex(items) && k !in Start(prior, feedUrl, items).records
    ensures k in Run(prior, feedUrl, items, exitRecord, now).document.records
    ensures var after := Run(prior, feedUrl, items, exitRecord, now).document.records[k];
      && after.current && after.entrances == [now] && after.exits == [] && after.firstSeen == now
      && exists i :: 0 <= i < |items| && items[i].address == k && after.data == items[i]
  {
    var start := Start(prior, feedUrl, items);
    var exited := ExitAbsent(start.records, FeedIndex(items), exitRecord);
    var e := Enter(exited, items, now);
    assert Run(prior, feedUrl, items, exitRecord, now).document.records == e.records;
    EnterNewKey(exited, items, now, k);
    var i :| && 0 <= i < |items| && items[i].address == k
             && (forall j :: 0 <= j < i ==> items[j].address != k)
             && e.records[k] == NewItem(items[i], now, [now]);
    assert e.records[k].data == items[i];
  }

  /** Running again on the same feed reports no entrants and leaves every feed key's record as it was. */
  lemma SecondRunIsQuiet(prior: Option<FeedDocument>, feedUrl: string, items: seq<Intel>,
                         exitRecord1: ExitPolicy, exitRecord2: ExitPolicy, now1: Time, now2: Time)
    requires WellFormed(prior)
    ensures var first := Run(prior, feedUrl, items, exitRecord1, now1).document;
      var second := Run(Some(first), feedUrl, items, exitRecord2, now2);
      && second.entrants == []
      && second.document.records.Keys == first.records.Keys
      && (forall k | k in FeedIndex(items) ::
            k in first.records && second.document.records[k] == first.records[k])
  {
    var first := Run(prior, feedUrl, items, exitRecord1, now1).document;
    RunKeepsRecords(prior, feedUrl, items, exitRecord1, now1);
    var index := FeedIndex(items);
    var exited := ExitAbsent(first.records, index, exitRecord2);
    assert Start(Some(first), feedUrl, items) == first;
    assert forall k | k in index :: k in exited && exited[k] == first.records[k];
    EnterAllCurrent(exited, items, now2);
    assert Run(Some(first), feedUrl, items, exitRecord2, now2)
      == RunResult(FeedDocument(first.url, exited, Some(now2)), []);
  }
}
