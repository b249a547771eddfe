/**
 * Chat messages, abstracted from their text: a message is the item count in
 * its header (when it has one), the item blocks it shows in order, and the
 * count of items its trailer says are not shown (when it has a trailer).
 */
module Messages {
  import opened Wrappers
  import opened Listing

  datatype Message = Message(count: Option<nat>, blocks: seq<Item>, hidden: Option<nat>)

  /** What a monitor sends: the startup notice (polling period in whole
      minutes, and depending on the monitor the number of current items, the
      start time and the inventory report), or a batch of listings. */
  datatype Notice =
    | Started(minutes: int, currentItems: Option<nat>, startedAt: Option<string>, inventory: Option<Message>)
    | Listings(message: Message)
}
