/** The browser's `localStorage` as the love chest sees it: a string-to-string
    map whose reads and writes may throw. */
module LocalStorage {
  import opened Wrappers
  import opened Js

  /** The stored items and two faults, each fixed for the lifetime of the
      value. `readFault` is the error thrown when storage cannot be accessed
      at all (disabled storage): every `getItem` and every `removeItem` throws
      it. `writeFault` is the error every `setItem` throws (exhausted quota,
      or storage that cannot be accessed, which then has both faults). A full
      quota makes only `setItem` throw: removing an item never needs room. */
  datatype Storage = Storage(items: map<string, string>, readFault: Option<JsError>, writeFault: Option<JsError>)
  {
    /** Neither reads nor writes throw. */
    predicate Healthy() { readFault.None? && writeFault.None? }
  }

  /** `after` differs from `before` at most in `key`. */
  predicate OnlyKeyChanged(before: map<string, string>, after: map<string, string>, key: string) {
    && (forall k :: k in after && k != key ==> k in before && after[k] == before[k])
    && (forall k :: k in before && k != key ==> k in after)
  }

  /** The value stored under `key`, `None` when absent. */
  function Stored(st: Storage, key: string): Option<string> {
    if key in st.items then Some(st.items[key]) else None
  }

  /** `localStorage.getItem(key)`: the stored value, `null` when absent. */
  function GetItem(st: Storage, key: string): Result<Option<string>, JsError> {
    match st.readFault
    case Some(e) => Failure(e)
    case None => Success(Stored(st, key))
  }

  /** `localStorage.setItem(key, value)`. */
  function SetItem(st: Storage, key: string, value: string): Result<Storage, JsError> {
    match st.writeFault
    case Some(e) => Failure(e)
    case None => Success(st.(items := st.items[key := value]))
  }

  /** `localStorage.removeItem(key)`: fails only when storage cannot be accessed. */
  function RemoveItem(st: Storage, key: string): Result<Storage, JsError> {
    match st.readFault
    case Some(e) => Failure(e)
    case None => Success(st.(items := st.items - {key}))
  }
}

/** The storage keys the love chest uses. */
module Keys {
  const LastOpenedDate: string := "lastOpenedDate"
  const ChestOpen: string := "chestOpen"
  const CurrentMessage: string := "currentMessage"
  const LastMessageIndex: string := "lastMessageIndex"
  const LastShownMessage: string := "lastShownMessage"
  /** The key of the saved message list (`STORAGE_KEY`). */
  const MessageList: string := "dailyLoveChest"
  /** The key the first, shadowed `setLastOpenedDate` and `getLastOpenedDate` use (`LAST_OPENED_KEY`). */
  const LastOpened: string := "lastOpened"
}
