/**
 * The records the feed processor passes around: the static feed configuration,
 * one parsed intelligence record per feed line, the per-address tracking record
 * and the persisted per-feed state document.
 */
module Models {

  datatype Option<+T> = None | Some(value: T)

  /** A UTC instant as returned by `datetime.now(timezone.utc)`; clock reads are inputs of the model. */
  type Time = int

  /** One configured feed: where it comes from, what it is called, its URL and whether it is switched off. */
  datatype FeedConfig = FeedConfig(source: string, name: string, url: string, disabled: bool)

  /**
   * An accepted feed line: the canonical text of the parsed address or network
   * (what `str(ip_address)` prints, also the tracking key), when it was parsed
   * and the feed it came from.
   */
  datatype Intel = Intel(address: string, lastSeen: Time, category: string)

  /** The `data_model` tag every tracking record carries. */
  const DataModel := "TalosIntelligence"

  /** The tracking record of one address in one feed (`FeedStateItem`). */
  datatype FeedStateItem = FeedStateItem(
    key: string,
    data: Intel,
    dataModel: string,
    firstSeen: Time,
    current: bool,
    entrances: seq<Time>,
    exits: seq<Time>)

  type Records = map<string, FeedStateItem>

  /** The persisted part of a `FeedState`: its URL, its records by address key and when it was last checked. */
  datatype FeedDocument = FeedDocument(url: string, records: Records, lastChecked: Option<Time>)

  /** Every record is filed under its own key. */
  predicate KeysConsistent(records: Records) {
    forall k | k in records :: records[k].key == k
  }
}
