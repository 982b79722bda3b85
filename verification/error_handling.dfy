/** Error classification and the throwing wrappers of js/utils/errorHandling.js. */
module ErrorHandling {
  import opened Wrappers
  import opened Js
  import opened LocalStorage

  const DomErrorName: string := "DOMError"
  const StorageErrorName: string := "StorageError"
  const AssetErrorName: string := "AssetError"
  const GenericErrorName: string := "Error"

  /** `new DOMError(message)`. */
  function DomError(message: string): (e: JsError)
    ensures e.name == DomErrorName && e.message == message
  {
    JsError(DomErrorName, message)
  }

  /** `new StorageError(message)`. */
  function StorageError(message: string): (e: JsError)
    ensures e.name == StorageErrorName && e.message == message
  {
    JsError(StorageErrorName, message)
  }

  /** `new AssetError(message)`. */
  function AssetError(message: string): (e: JsError)
    ensures e.name == AssetErrorName && e.message == message
  {
    JsError(AssetErrorName, message)
  }

  const DomErrorText: string := "Es gab ein Problem beim Laden der Seite. Bitte lade die Seite neu."
  const StorageErrorText: string := "Es gab ein Problem beim Speichern. Deine Daten sind möglicherweise nicht gespeichert."
  const AssetErrorText: string := "Es gab ein Problem beim Laden der Animationen. Die Schatztruhe funktioniert trotzdem!"
  const GenericErrorText: string := "Es ist ein unerwarteter Fehler aufgetreten. Bitte lade die Seite neu."

  /** The table `handleError` looks the error name up in. */
  const ErrorMessages: map<string, string> := map[
    DomErrorName := DomErrorText,
    StorageErrorName := StorageErrorText,
    AssetErrorName := AssetErrorText,
    GenericErrorName := GenericErrorText
  ]

  /** The user-facing text shown for an error name: its own entry of the
      table, or the generic text for a name the table does not know. */
  function UserMessage(name: string): (text: string)
    ensures text in ErrorMessages.Values
    ensures name == DomErrorName ==> text == DomErrorText
    ensures name == StorageErrorName ==> text == StorageErrorText
    ensures name == AssetErrorName ==> text == AssetErrorText
    ensures name !in {DomErrorName, StorageErrorName, AssetErrorName} ==> text == GenericErrorText
  {
    var found := if name in ErrorMessages then ErrorMessages[name] else "";
    if found != "" then found else ErrorMessages[GenericErrorName]
  }

  /** What `handleError` does: the text it shows and the value it returns. */
  datatype Handled<T> = Handled(shown: string, returned: Option<T>)

  /** `handleError(error, fallback)`: shows the text for the error's name and
      returns the fallback unchanged; an omitted fallback is `null` (`None`). */
  function HandleError<T>(error: JsError, fallback: Option<T>): (h: Handled<T>)
    ensures h.returned == fallback
    ensures h.shown == UserMessage(error.name)
  {
    Handled(UserMessage(error.name), fallback)
  }

  /** Each custom error class gets its own user-facing text from `handleError`. */
  lemma CustomErrorsSelectOwnText(message: string)
    ensures HandleError<bool>(DomError(message), None).shown == DomErrorText
    ensures HandleError<bool>(StorageError(message), None).shown == StorageErrorText
    ensures HandleError<bool>(AssetError(message), None).shown == AssetErrorText
    ensures HandleError<bool>(JsError(GenericErrorName, message), None).shown == GenericErrorText
  {
  }

  /** `getElement(id)`: the element with that id, or a thrown `DOMError` naming the id. */
  function GetElement<E>(document: map<string, E>, id: string): (r: Result<E, JsError>)
    ensures r.Success? <==> id in document
    ensures r.Success? ==> r.value == document[id]
    ensures r.Failure? ==> r.error == DomError("Element with id \"" + id + "\" not found")
  {
    if id in document then Success(document[id])
    else Failure(DomError("Element with id \"" + id + "\" not found"))
  }

  /** `safeStorage.getItem(key)`: the stored value or `null`; a failing read
      is rethrown as a `StorageError` carrying the original message. */
  function SafeGetItem(st: Storage, key: string): (r: Result<Option<string>, JsError>)
    ensures r.Success? <==> st.readFault.None?
    ensures r.Success? ==> r.value == Stored(st, key)
    ensures r.Failure? ==> r.error == StorageError("Failed to read from storage: " + st.readFault.value.message)
  {
    match GetItem(st, key)
    case Success(v) => Success(v)
    case Failure(e) => Failure(StorageError("Failed to read from storage: " + e.message))
  }

  /** `safeStorage.setItem(key, value)`: stores the value and changes no other
      key, or throws a `StorageError`. */
  function SafeSetItem(st: Storage, key: string, value: string): (r: Result<Storage, JsError>)
    ensures r.Success? <==> st.writeFault.None?
    ensures r.Success? ==> r.value.items == st.items[key := value]
    ensures r.Success? ==> r.value.readFault == st.readFault && r.value.writeFault == st.writeFault
    ensures r.Failure? ==> r.error == StorageError("Failed to write to storage: " + st.writeFault.value.message)
  {
    match SetItem(st, key, value)
    case Success(s) => Success(s)
    case Failure(e) => Failure(StorageError("Failed to write to storage: " + e.message))
  }

  /** `safeStorage.removeItem(key)`: removes the key and changes no other key,
      or, when storage cannot be accessed, throws a `StorageError`. */
  function SafeRemoveItem(st: Storage, key: string): (r: Result<Storage, JsError>)
    ensures r.Success? <==> st.readFault.None?
    ensures r.Success? ==> r.value.items == st.items - {key}
    ensures r.Success? ==> r.value.readFault == st.readFault && r.value.writeFault == st.writeFault
    ensures r.Failure? ==> r.error == StorageError("Failed to remove from storage: " + st.readFault.value.message)
  {
    match RemoveItem(st, key)
    case Success(s) => Success(s)
    case Failure(e) => Failure(StorageError("Failed to remove from storage: " + e.message))
  }

  /** Whatever the underlying failure, the safe wrappers only ever throw a
      `StorageError`, which `handleError` reports with the storage text. */
  lemma SafeStorageFailuresAreStorageErrors(st: Storage, key: string, value: string)
    ensures SafeGetItem(st, key).Failure? ==> UserMessage(SafeGetItem(st, key).error.name) == StorageErrorText
    ensures SafeSetItem(st, key, value).Failure? ==> UserMessage(SafeSetItem(st, key, value).error.name) == StorageErrorText
    ensures SafeRemoveItem(st, key).Failure? ==> UserMessage(SafeRemoveItem(st, key).error.name) == StorageErrorText
  {
  }
}
