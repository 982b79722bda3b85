/** The message pool and the selector of js/messages.js: a message is drawn
    among all pool indices except the one shown last, and the drawn index is
    remembered. The draw `Math.floor(Math.random() * n)` is modelled by the
    random number itself, a real in [0, 1). */
module Messages {
  import opened Wrappers
  import opened Js
  import opened LocalStorage
  import Keys

  const LoveMessages: seq<string> := [
    "Ich liebe dich!",
    "Du bist mein Ein und Alles!",
    "Du bist wundervoll!",
    "Du bist mein Sonnenschein!",
    "Du bist die schönste Frau der Welt!",
    "Du hast sooo tolle Haare!",
    "Fabi und Benni sind ein tolles Team!",
    "Wir passen soooo gut zusammen!",
    "Ich kann nicht genug von dir bekommen!",
    "Ich liebe dich so wie du bist!",
    "Mein Herz gehört dir!",
    "Wir tanzen genauso toll wie die in Dirty Dancing!",
    "Deine Haut ist so weich und schön. Ich liebe sie zu streicheln!",
    "Du bist so süß!",
    "Du bist so sexy!",
    "Wir fahren zusammen in den Urlaub!",
    "Die Zeit mit dir ist so schön!"
  ]

  /** The largest length a JavaScript array can have, plus one. */
  const ArrayLengthBound: int := 0x1_0000_0000

  /** `getLastMessageIndex()` of js/messages.js: −1 when nothing is stored or
      the read throws, otherwise `parseInt(stored, 10)`, possibly NaN. */
  function GetLastMessageIndex(st: Storage): (r: JsNumber)
    ensures st.readFault.Some? || Keys.LastMessageIndex !in st.items ==> r == Finite(-1)
  {
    match GetItem(st, Keys.LastMessageIndex)
    case Failure(_) => Finite(-1)
    case Success(None) => Finite(-1)
    case Success(Some(text)) => ParseInt(text, Ten)
  }

  /** `setLastMessageIndex(index)` of js/messages.js: stores the index as
      decimal text; a throwing write is swallowed and leaves storage as it was. */
  function SetLastMessageIndex(st: Storage, index: nat): (r: Storage)
    requires IsSafeInteger(index)
    ensures r.readFault == st.readFault && r.writeFault == st.writeFault
    ensures st.writeFault.Some? ==> r == st
    ensures st.writeFault.None? ==> OnlyKeyChanged(st.items, r.items, Keys.LastMessageIndex)
    ensures st.readFault.None? && st.writeFault.None? ==> GetLastMessageIndex(r) == Finite(index)
  {
    ParseIntNumberToString(index, Ten);
    match SetItem(st, Keys.LastMessageIndex, NumberToString(index))
    case Success(after) => after
    case Failure(_) => st
  }

  /** The candidate indices: `0 .. n-1` in ascending order, leaving out `last`. */
  function AvailableIndices(n: nat, last: JsNumber): (r: seq<nat>)
    ensures forall j :: 0 <= j < |r| ==> r[j] < n && last != Finite(r[j])
    ensures |r| == if last.Finite? && 0 <= last.value < n then n - 1 else n
  {
    if n == 0 then []
    else AvailableIndices(n - 1, last) + (if last == Finite(n - 1) then [] else [n - 1])
  }

  /** The candidates are exactly the indices other than `last`, ascending. */
  lemma {:induction false} AvailableIndicesAreAllOthers(n: nat, last: JsNumber)
    ensures forall i :: 0 <= i < n && last != Finite(i) ==> i in AvailableIndices(n, last)
    ensures forall j, k :: 0 <= j < k < |AvailableIndices(n, last)| ==> AvailableIndices(n, last)[j] < AvailableIndices(n, last)[k]
  {
    if n > 0 {
      AvailableIndicesAreAllOthers(n - 1, last);
    }
  }

  /** The loop of js/messages.js that collects the candidates. */
  method CollectAvailable(n: nat, last: JsNumber) returns (available: seq<nat>)
    ensures available == AvailableIndices(n, last)
  {
    available := [];
    var i := 0;
    while i < n
      invariant i <= n
      invariant available == AvailableIndices(i, last)
    {
      assert AvailableIndices(i + 1, last) == AvailableIndices(i, last) + (if last == Finite(i) then [] else [i]);
      if last != Finite(i) {
        available := available + [i];
      }
      i := i + 1;
    }
  }

  /** Every index `0 .. n-1` in ascending order: the reset list. */
  function AllIndices(n: nat): (r: seq<nat>)
    ensures |r| == n && forall i :: 0 <= i < n ==> r[i] == i
  {
    seq(n, i => i)
  }

  /** The list the draw is made from: the available indices, or every index
      when none is available. */
  function Candidates(n: nat, last: JsNumber): (r: seq<nat>)
    ensures n > 0 ==> |r| > 0
    ensures forall i :: 0 <= i < |r| ==> r[i] < n
    ensures |AvailableIndices(n, last)| > 0 ==> r == AvailableIndices(n, last)
    ensures |AvailableIndices(n, last)| == 0 ==> |r| == n
  {
    var available := AvailableIndices(n, last);
    if |available| == 0 then AllIndices(n) else available
  }

  /** `Math.floor(random * length)` for a random number in [0, 1). */
  function RandomPosition(random: real, length: nat): (p: nat)
    requires 0.0 <= random < 1.0 && length > 0
    ensures p < length
  {
    var x := random * length as real;
    assert x < length as real;
    x.Floor
  }

  /** The outcome of a draw: the index, its message and the storage after the
      index was remembered. */
  datatype Selection = Selection(index: nat, message: string, store: Storage)

  /** `getDailyMessage()` over any non-empty pool. */
  function SelectMessage(pool: seq<string>, st: Storage, random: real): (s: Selection)
    requires 0 < |pool| < ArrayLengthBound && 0.0 <= random < 1.0
    ensures s.index < |pool| && s.message == pool[s.index]
    ensures |pool| >= 2 ==> GetLastMessageIndex(st) != Finite(s.index)
    ensures s.store.readFault == st.readFault && s.store.writeFault == st.writeFault
    ensures st.writeFault.Some? ==> s.store == st
    ensures st.writeFault.None? ==> OnlyKeyChanged(st.items, s.store.items, Keys.LastMessageIndex)
    ensures st.Healthy() ==> GetLastMessageIndex(s.store) == Finite(s.index)
  {
    var candidates := Candidates(|pool|, GetLastMessageIndex(st));
    var index := candidates[RandomPosition(random, |candidates|)];
    Selection(index, pool[index], SetLastMessageIndex(st, index))
  }

  /** `getDailyMessage()`: a draw from the love messages that never repeats
      the message drawn last. */
  function GetDailyMessage(st: Storage, random: real): (s: Selection)
    requires 0.0 <= random < 1.0
    ensures s.index < |LoveMessages| && s.message == LoveMessages[s.index]
    ensures GetLastMessageIndex(st) != Finite(s.index)
    ensures st.writeFault.Some? ==> s.store == st
    ensures st.writeFault.None? ==> OnlyKeyChanged(st.items, s.store.items, Keys.LastMessageIndex)
    ensures st.Healthy() ==> GetLastMessageIndex(s.store) == Finite(s.index)
  {
    SelectMessage(LoveMessages, st, random)
  }

  /** `getRandomLoveMessage()`: an alias of `getDailyMessage()`. */
  function GetRandomLoveMessage(st: Storage, random: real): (s: Selection)
    requires 0.0 <= random < 1.0
    ensures s == GetDailyMessage(st, random)
  {
    GetDailyMessage(st, random)
  }

  /** A stored index that is absent, unreadable, not a number or out of range
      excludes nothing: every pool index is a candidate. */
  lemma {:induction false} NoValidHistoryKeepsEveryIndex(n: nat, last: JsNumber)
    requires !(last.Finite? && 0 <= last.value < n)
    ensures AvailableIndices(n, last) == AllIndices(n)
    ensures Candidates(n, last) == AllIndices(n)
  {
    if n > 0 {
      NoValidHistoryKeepsEveryIndex(n - 1, last);
      assert AllIndices(n - 1) + [n - 1] == AllIndices(n);
    }
  }

  /** The stored history is invalid when the read throws, nothing is stored,
      or the stored text does not parse to an index of the pool. */
  lemma UnreadableHistoryKeepsEveryIndex(st: Storage, n: nat)
    requires || st.readFault.Some?
             || Keys.LastMessageIndex !in st.items
             || ParseInt(st.items[Keys.LastMessageIndex], Ten) == NaN
             || !(0 <= ParseInt(st.items[Keys.LastMessageIndex], Ten).value < n)
    ensures Candidates(n, GetLastMessageIndex(st)) == AllIndices(n)
  {
    NoValidHistoryKeepsEveryIndex(n, GetLastMessageIndex(st));
  }

  /** The reset to every index happens only for an empty pool or a one-entry
      pool whose only index is the excluded one. */
  lemma ResetOnlyForExhaustedPool(n: nat, last: JsNumber)
    ensures |AvailableIndices(n, last)| == 0 <==> n == 0 || (n == 1 && last == Finite(0))
  {
  }

  /** With the seventeen love messages the reset never happens: at least
      sixteen candidates remain. */
  lemma LoveMessagesNeverReset(last: JsNumber)
    ensures |AvailableIndices(|LoveMessages|, last)| >= 16
    ensures Candidates(|LoveMessages|, last) == AvailableIndices(|LoveMessages|, last)
  {
  }

  /** The random number `k / length`, which falls in [0, 1) when `k < length`. */
  function Fraction(k: nat, length: nat): (random: real)
    requires k < length
    ensures 0.0 <= random < 1.0
  {
    k as real / length as real
  }

  /** The random number `k / length` draws position `k`. */
  lemma FractionDrawsPosition(k: nat, length: nat)
    requires k < length
    ensures RandomPosition(Fraction(k, length), length) == k
  {
    var L := length as real;
    assert Fraction(k, length) * L == k as real;
  }

  /** Every candidate can be drawn: the random number `k / |candidates|`
      draws the `k`-th one. */
  lemma EveryCandidateCanBeDrawn(pool: seq<string>, st: Storage, k: nat)
    requires 0 < |pool| < ArrayLengthBound
    requires k < |Candidates(|pool|, GetLastMessageIndex(st))|
    ensures SelectMessage(pool, st, Fraction(k, |Candidates(|pool|, GetLastMessageIndex(st))|)).index
            == Candidates(|pool|, GetLastMessageIndex(st))[k]
  {
    FractionDrawsPosition(k, |Candidates(|pool|, GetLastMessageIndex(st))|);
  }

  /** No love message is empty, so a draw always yields text to show. */
  lemma LoveMessagesAreNonEmpty(i: nat)
    requires i < |LoveMessages|
    ensures LoveMessages[i] != ""
  {
  }
}
