/**
 * The known-item store: item id to the record kept for it. Both monitors
 * start with an empty store and never remove an entry.
 */
module KnownStore {
  import opened Listing

  type Store = map<string, Item>

  /** `after` keeps every key of `before` with its record unchanged:
      the store only grows and first-seen data is never replaced. */
  ghost predicate Extends(before: Store, after: Store)
  {
    && before.Keys <= after.Keys
    && forall k :: k in before ==> after[k] == before[k]
  }
}
