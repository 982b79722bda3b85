/** The typed storage helpers of js/storage.js. None of them catches an
    exception: a throwing `localStorage` call is passed on as `Failure`. When
    the file declares a function twice, the later declaration is the one in
    effect, so only the second `setLastOpenedDate` is modelled. */
module StorageHelpers {
  import opened Wrappers
  import opened Js
  import opened LocalStorage
  import Json
  import Keys

  /** What `getMessages` returns: the saved list, or `NotAList` when the stored
      text is not a JSON array of strings (JSON.parse then throws or yields
      some other value; which one is not modelled). */
  datatype MessageList = Listed(messages: seq<string>) | NotAList

  /** `getMessages()`: the saved list, or `[]` when nothing is saved. */
  function GetMessages(st: Storage): (r: Result<MessageList, JsError>)
    ensures r.Failure? <==> st.readFault.Some?
    ensures r.Success? && Keys.MessageList !in st.items ==> r.value == Listed([])
  {
    var stored :- GetItem(st, Keys.MessageList);
    match stored
    case None => Success(Listed([]))
    case Some(text) =>
      match Json.Parse(text)
      case Some(xs) => Success(Listed(xs))
      case None => Success(NotAList)
  }

  /** `saveMessages(messages)`: stores the list as JSON under its own key. */
  function SaveMessages(st: Storage, messages: seq<string>): (r: Result<Storage, JsError>)
    ensures r.Success? <==> st.writeFault.None?
    ensures r.Success? ==> OnlyKeyChanged(st.items, r.value.items, Keys.MessageList)
    ensures r.Success? ==> r.value.readFault == st.readFault
  {
    SetItem(st, Keys.MessageList, Json.Stringify(messages))
  }

  /** Saving a list and reading it back gives the same list. */
  lemma MessagesRoundTrip(st: Storage, messages: seq<string>)
    requires st.Healthy()
    ensures SaveMessages(st, messages).Success?
    ensures GetMessages(SaveMessages(st, messages).value) == Success(Listed(messages))
  {
    Json.ParseStringify(messages);
  }

  /** `getLastOpenedDate()` as written: it reads `lastOpened`, the key of the
      shadowed first `setLastOpenedDate`. */
  function GetLastOpenedDate(st: Storage): (r: Result<Option<string>, JsError>)
    ensures r.Success? ==> (r.value.Some? <==> Keys.LastOpened in st.items)
  {
    GetItem(st, Keys.LastOpened)
  }

  /** `getLastOpenedDate()` reading the key the effective setter writes. */
  function GetLastOpenedDateCorrected(st: Storage): (r: Result<Option<string>, JsError>)
    ensures r.Success? ==> (r.value.Some? <==> Keys.LastOpenedDate in st.items)
  {
    GetItem(st, Keys.LastOpenedDate)
  }

  /** `setLastOpenedDate(date)`, the second declaration: writes `lastOpenedDate`. */
  function SetLastOpenedDate(st: Storage, date: string): (r: Result<Storage, JsError>)
    ensures r.Success? <==> st.writeFault.None?
    ensures r.Success? ==> OnlyKeyChanged(st.items, r.value.items, Keys.LastOpenedDate)
    ensures r.Success? ==> Keys.LastOpenedDate in r.value.items && r.value.items[Keys.LastOpenedDate] == date
    ensures r.Success? ==> r.value.readFault == st.readFault
  {
    SetItem(st, Keys.LastOpenedDate, date)
  }

  /** `canOpenChest()`: the chest is closed for today exactly when a non-empty
      `lastOpenedDate` equal to today is stored. */
  function CanOpenChest(st: Storage, today: string): (r: Result<bool, JsError>)
    ensures r.Failure? <==> st.readFault.Some?
    ensures r.Success? ==> (!r.value <==> Keys.LastOpenedDate in st.items && st.items[Keys.LastOpenedDate] == today && today != "")
  {
    var lastOpened :- GetItem(st, Keys.LastOpenedDate);
    match lastOpened
    case None => Success(true)
    case Some(d) => if d == "" then Success(true) else Success(today != d)
  }

  /** After the effective `setLastOpenedDate(today)`, `canOpenChest()` is false. */
  lemma SetLastOpenedDateClosesChest(st: Storage, today: string)
    requires st.Healthy() && today != ""
    ensures SetLastOpenedDate(st, today).Success?
    ensures CanOpenChest(SetLastOpenedDate(st, today).value, today) == Success(false)
  {
  }

  /** With nothing stored under `lastOpened`, a date written by the effective
      setter is not read back by `getLastOpenedDate` as written. */
  lemma LastOpenedDateNotReadBack(st: Storage, date: string)
    requires st.Healthy() && Keys.LastOpened !in st.items
    ensures SetLastOpenedDate(st, date).Success?
    ensures GetLastOpenedDate(SetLastOpenedDate(st, date).value) == Success(None)
  {
  }

  /** The corrected getter reads back what the effective setter wrote. */
  lemma LastOpenedDateRoundTrip(st: Storage, date: string)
    requires st.Healthy()
    ensures SetLastOpenedDate(st, date).Success?
    ensures GetLastOpenedDateCorrected(SetLastOpenedDate(st, date).value) == Success(Some(date))
  {
  }

  /** `getLastMessageIndex()`: −1 when the key is absent or empty, otherwise
      `parseInt` of the stored text without a radix. */
  function GetLastMessageIndex(st: Storage): (r: Result<JsNumber, JsError>)
    ensures r.Failure? <==> st.readFault.Some?
    ensures r.Success? && (Keys.LastMessageIndex !in st.items || st.items[Keys.LastMessageIndex] == "") ==> r.value == Finite(-1)
  {
    var index :- GetItem(st, Keys.LastMessageIndex);
    match index
    case None => Success(Finite(-1))
    case Some(text) => if text == "" then Success(Finite(-1)) else Success(ParseInt(text, Absent))
  }

  /** `setLastMessageIndex(index)`: stores the decimal text of the index. */
  function SetLastMessageIndex(st: Storage, index: int): (r: Result<Storage, JsError>)
    requires IsSafeInteger(index)
    ensures r.Success? <==> st.writeFault.None?
    ensures r.Success? ==> OnlyKeyChanged(st.items, r.value.items, Keys.LastMessageIndex)
    ensures r.Success? ==> r.value.readFault == st.readFault
  {
    SetItem(st, Keys.LastMessageIndex, NumberToString(index))
  }

  /** Every safe integer, 0 included, reads back after it is stored. */
  lemma LastMessageIndexRoundTrip(st: Storage, index: int)
    requires st.Healthy() && IsSafeInteger(index)
    ensures SetLastMessageIndex(st, index).Success?
    ensures GetLastMessageIndex(SetLastMessageIndex(st, index).value) == Success(Finite(index))
  {
    ParseIntNumberToString(index, Absent);
  }

  /** `getLastMessage()`: the stored text, or "" when nothing is stored. */
  function GetLastMessage(st: Storage): (r: Result<string, JsError>)
    ensures r.Failure? <==> st.readFault.Some?
    ensures r.Success? && Keys.LastShownMessage !in st.items ==> r.value == ""
  {
    var stored :- GetItem(st, Keys.LastShownMessage);
    match stored
    case None => Success("")
    case Some(m) => Success(m)
  }

  /** `setLastMessage(message)`. */
  function SetLastMessage(st: Storage, message: string): (r: Result<Storage, JsError>)
    ensures r.Success? <==> st.writeFault.None?
    ensures r.Success? ==> OnlyKeyChanged(st.items, r.value.items, Keys.LastShownMessage)
    ensures r.Success? ==> r.value.readFault == st.readFault
  {
    SetItem(st, Keys.LastShownMessage, message)
  }

  /** A stored message reads back unchanged. */
  lemma LastMessageRoundTrip(st: Storage, message: string)
    requires st.Healthy()
    ensures SetLastMessage(st, message).Success?
    ensures GetLastMessage(SetLastMessage(st, message).value) == Success(message)
  {
  }
}
