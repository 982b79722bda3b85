/** The daily-unlock state machine of js/chest.js, as transitions of storage
    and of what the page shows. The open animation is reduced to its outcome
    (`Reveal`): whether the open-chest picture loads with its trigger, the
    random number of the draw, and the day string when the message appears.
    A thrown storage error ends the handler that threw it: the changes made
    before the throw stay, the statements after it do not run. */
module Chest {
  import opened Wrappers
  import opened Js
  import opened LocalStorage
  import opened Keys
  import opened Messages

  const OpenLabel: string := "Schatz öffnen"
  const ComeBackLabel: string := "Komm morgen wieder 😘"

  /** What the page shows: the open chest (rather than the closed one), the
      visible message, and the button's label and state. */
  datatype View = View(lidOpen: bool, message: Option<string>, buttonLabel: string, buttonDisabled: bool)

  /** The closed chest with an enabled button, as set up for a new day. */
  const LockedView: View := View(false, None, OpenLabel, false)

  /** One handler run: storage and view afterwards, the index drawn if the
      selector ran, and the error that ended the handler if one was thrown. */
  datatype Step = Step(store: Storage, view: View, drawn: Option<nat>, thrown: Option<JsError>)

  /** The outcome of the open animation that follows a click. */
  datatype Reveal = Reveal(triggerFound: bool, random: real, day: string) {
    predicate Valid() { 0.0 <= random < 1.0 }
  }

  /** `showSavedMessage()`: shows the saved message if one is stored and non-empty. */
  function ShowSavedMessage(st: Storage, v: View): (s: Step)
    ensures s.store == st && s.drawn.None?
    ensures s.thrown.Some? <==> st.readFault.Some?
    ensures s.view.lidOpen == v.lidOpen && s.view.buttonLabel == v.buttonLabel && s.view.buttonDisabled == v.buttonDisabled
    ensures st.readFault.None? && Stored(st, CurrentMessage).Some? && Stored(st, CurrentMessage).value != ""
            ==> s.view.message == Stored(st, CurrentMessage)
    ensures !(st.readFault.None? && Stored(st, CurrentMessage).Some? && Stored(st, CurrentMessage).value != "")
            ==> s.view == v
  {
    match GetItem(st, CurrentMessage)
    case Failure(e) => Step(st, v, None, Some(e))
    case Success(saved) =>
      if saved.Some? && saved.value != "" then Step(st, v.(message := saved), None, None)
      else Step(st, v, None, None)
  }

  /** `loadChestState()`: restores the open chest when it was opened today,
      otherwise shows the closed chest and, when the stored date is not
      today, removes the stale open flag and message. */
  function LoadChestState(st: Storage, today: string, v: View): (s: Step)
    ensures s.drawn.None?
    ensures st.readFault.Some? ==> s == Step(st, v, None, st.readFault)
    ensures st.readFault.None? ==> s.thrown.None?
    ensures st.readFault.None? ==>
              (s.view.lidOpen <==> Stored(st, LastOpenedDate) == Some(today) && Stored(st, ChestOpen) == Some("true"))
    ensures st.readFault.None? ==> (s.view.buttonDisabled <==> s.view.lidOpen)
    ensures Stored(st, LastOpenedDate) == Some(today) ==> s.store == st
  {
    match GetItem(st, LastOpenedDate)
    case Failure(e) => Step(st, v, None, Some(e))
    case Success(lastOpened) =>
      match GetItem(st, ChestOpen)
      case Failure(e) => Step(st, v, None, Some(e))
      case Success(flag) =>
        if lastOpened == Some(today) && flag == Some("true") then
          ShowSavedMessage(st, v.(lidOpen := true, buttonLabel := ComeBackLabel, buttonDisabled := true))
        else if lastOpened == Some(today) then
          Step(st, LockedView, None, None)
        else
          match RemoveItem(st, ChestOpen)
          case Failure(e) => Step(st, LockedView, None, Some(e))
          case Success(st1) =>
            match RemoveItem(st1, CurrentMessage)
            case Failure(e) => Step(st1, LockedView, None, Some(e))
            case Success(st2) => Step(st2, LockedView, None, None)
  }

  /** The three writes that record an opened chest, in source order. */
  function CommitOpen(st: Storage, day: string, message: string): (r: Result<Storage, JsError>)
    ensures r.Success? <==> st.writeFault.None?
    ensures r.Success? ==> r.value.readFault == st.readFault && r.value.writeFault == st.writeFault
    ensures r.Success? ==> r.value.items == st.items[LastOpenedDate := day][CurrentMessage := message][ChestOpen := "true"]
  {
    match SetItem(st, LastOpenedDate, day)
    case Failure(e) => Failure(e)
    case Success(st1) =>
      match SetItem(st1, CurrentMessage, message)
      case Failure(e) => Failure(e)
      case Success(st2) => SetItem(st2, ChestOpen, "true")
  }

  /** The button as it is left after an opening. */
  function Disable(v: View): (w: View)
    ensures w.buttonDisabled && w.buttonLabel == ComeBackLabel
    ensures w.lidOpen == v.lidOpen && w.message == v.message
  {
    v.(buttonLabel := ComeBackLabel, buttonDisabled := true)
  }

  /** The state-changing part of `openChestWithAnimation()`: the open chest is
      shown at once; only when the picture's trigger is found is a message
      drawn, shown and committed, after which the button is disabled. */
  function OpenChestWithAnimation(st: Storage, v: View, animation: Reveal): (s: Step)
    requires animation.Valid()
    ensures s.view.lidOpen
    ensures s.drawn.Some? <==> animation.triggerFound
    ensures !animation.triggerFound ==> s == Step(st, v.(lidOpen := true), None, None)
    ensures s.drawn.Some? ==> s.drawn.value < |LoveMessages| && GetLastMessageIndex(st) != Finite(s.drawn.value)
    ensures s.drawn.Some? ==> s.view.message == Some(LoveMessages[s.drawn.value])
    ensures animation.triggerFound && st.writeFault.None? ==> s.thrown.None? && s.view == Disable(s.view)
  {
    var shownOpen := v.(lidOpen := true);
    if !animation.triggerFound then Step(st, shownOpen, None, None)
    else
      var drawn := GetDailyMessage(st, animation.random);
      LoveMessagesAreNonEmpty(drawn.index);
      var shown := shownOpen.(message := Some(drawn.message));
      match CommitOpen(drawn.store, animation.day, drawn.message)
      case Failure(e) => Step(drawn.store, shown, Some(drawn.index), Some(e))
      case Success(committed) => Step(committed, Disable(shown), Some(drawn.index), None)
  }

  /** `handleChestClick()`: on the day already recorded, only re-shows the
      saved message; on any other day, runs the open path. */
  function HandleChestClick(st: Storage, v: View, today: string, animation: Reveal): (s: Step)
    requires animation.Valid()
    ensures st.readFault.Some? ==> s == Step(st, v, None, st.readFault)
    ensures Stored(st, LastOpenedDate) == Some(today) ==> s.store == st && s.drawn.None?
    ensures Stored(st, LastOpenedDate) == Some(today) ==> s == ShowSavedMessage(st, v)
    ensures s.drawn.Some? ==> Stored(st, LastOpenedDate) != Some(today) && animation.triggerFound
    ensures s.drawn.Some? ==> s.drawn.value < |LoveMessages| && GetLastMessageIndex(st) != Finite(s.drawn.value)
  {
    match GetItem(st, LastOpenedDate)
    case Failure(e) => Step(st, v, None, Some(e))
    case Success(lastOpened) =>
      if lastOpened == Some(today) then ShowSavedMessage(st, v)
      else OpenChestWithAnimation(st, v, animation)
  }

  /** The page after its content has loaded: storage, view, and whether the
      click listener got attached. */
  datatype Page = Page(store: Storage, view: View, listening: bool)

  /** The `DOMContentLoaded` handler: restores the chest state, then attaches
      the click listener, which a throw in `loadChestState` prevents. */
  function PageLoad(st: Storage, today: string, initial: View): (p: Page)
    ensures p.listening <==> LoadChestState(st, today, initial).thrown.None?
    ensures p.listening <==> st.readFault.None?
  {
    var s := LoadChestState(st, today, initial);
    Page(s.store, s.view, s.thrown.None?)
  }

  /** A click on the button: handled when the listener is attached and the
      button is enabled; a disabled button dispatches no click, so it is
      ignored until the next page load. */
  function Click(p: Page, today: string, animation: Reveal): (q: Page)
    requires animation.Valid()
    ensures !p.listening ==> q == p
    ensures p.view.buttonDisabled ==> q == p
    ensures q.listening == p.listening
    ensures q.store != p.store ==> p.listening && !p.view.buttonDisabled && q.view.buttonDisabled
  {
    if !p.listening || p.view.buttonDisabled then p
    else
      var s := HandleChestClick(p.store, p.view, today, animation);
      Page(s.store, s.view, true)
  }

  /** The four keys the open path writes. */
  predicate ChestKey(k: string) {
    k == LastOpenedDate || k == CurrentMessage || k == ChestOpen || k == LastMessageIndex
  }

  /** Keys other than the four the chest writes keep their values, and no
      such key is added. */
  predicate OtherKeysUnchanged(before: map<string, string>, after: map<string, string>) {
    && (forall k :: k in before && !ChestKey(k) ==> k in after && after[k] == before[k])
    && (forall k :: k in after && !ChestKey(k) ==> k in before)
  }

  /** A completed opening on a day other than the recorded one records the
      animation day, the drawn message and the open flag, remembers the drawn
      index, shows the message and disables the button. */
  lemma CompletedOpenCommitsState(st: Storage, v: View, today: string, animation: Reveal)
    requires st.Healthy() && animation.Valid() && animation.triggerFound
    requires Stored(st, LastOpenedDate) != Some(today)
    ensures var s := HandleChestClick(st, v, today, animation);
            && s.drawn.Some? && s.thrown.None? && s.store.Healthy()
            && var i := s.drawn.value;
            && Stored(s.store, LastOpenedDate) == Some(animation.day)
            && Stored(s.store, CurrentMessage) == Some(LoveMessages[i])
            && Stored(s.store, ChestOpen) == Some("true")
            && GetLastMessageIndex(s.store) == Finite(i)
            && OtherKeysUnchanged(st.items, s.store.items)
            && s.view.lidOpen && s.view.message == Some(LoveMessages[i])
            && s.view.buttonDisabled && s.view.buttonLabel == ComeBackLabel
  {
    var drawn := GetDailyMessage(st, animation.random);
    LoveMessagesAreNonEmpty(drawn.index);
    var committed := CommitOpen(drawn.store, animation.day, drawn.message).value;
    var shown := v.(lidOpen := true).(message := Some(drawn.message));
    assert HandleChestClick(st, v, today, animation) == Step(committed, Disable(shown), Some(drawn.index), None);
    CommittedKeys(st, drawn.store, committed, animation.day, drawn.message);
  }

  /** What the three commit writes leave in storage that the draw had written. */
  lemma CommittedKeys(st: Storage, drawn: Storage, committed: Storage, day: string, message: string)
    requires st.Healthy() && drawn.Healthy()
    requires OnlyKeyChanged(st.items, drawn.items, LastMessageIndex)
    requires committed.readFault == drawn.readFault && committed.writeFault == drawn.writeFault
    requires committed.items == drawn.items[LastOpenedDate := day][CurrentMessage := message][ChestOpen := "true"]
    ensures committed.Healthy()
    ensures Stored(committed, LastOpenedDate) == Some(day)
    ensures Stored(committed, CurrentMessage) == Some(message)
    ensures Stored(committed, ChestOpen) == Some("true")
    ensures GetLastMessageIndex(committed) == GetLastMessageIndex(drawn)
    ensures OtherKeysUnchanged(st.items, committed.items)
  {
    assert Stored(committed, LastMessageIndex) == Stored(drawn, LastMessageIndex);
    forall k | k in st.items && !ChestKey(k)
      ensures k in committed.items && committed.items[k] == st.items[k]
    {
      assert k in drawn.items;
    }
    forall k | k in committed.items && !ChestKey(k)
      ensures k in st.items
    {
      assert k in drawn.items;
    }
  }

  /** When the picture's trigger is not found, the chest is shown open but
      nothing is drawn, written or disabled. */
  lemma OpenWithoutTriggerChangesNothing(st: Storage, v: View, today: string, animation: Reveal)
    requires st.readFault.None? && animation.Valid() && !animation.triggerFound
    requires Stored(st, LastOpenedDate) != Some(today)
    ensures HandleChestClick(st, v, today, animation) == Step(st, v.(lidOpen := true), None, None)
  {
  }

  /** There is no storage-failure fallback: when writes throw, the drawn
      message is shown but nothing is recorded and the button keeps its state. */
  lemma FailedCommitKeepsButton(st: Storage, v: View, today: string, animation: Reveal)
    requires st.readFault.None? && st.writeFault.Some? && animation.Valid() && animation.triggerFound
    requires Stored(st, LastOpenedDate) != Some(today)
    ensures var s := HandleChestClick(st, v, today, animation);
            && s.thrown.Some? && s.store == st && s.drawn.Some?
            && s.view.message == Some(LoveMessages[s.drawn.value])
            && s.view.buttonDisabled == v.buttonDisabled && s.view.buttonLabel == v.buttonLabel
  {
  }

  /** On load with a date other than today, the open flag and the message are
      removed and every other key, the date and the last index included, is
      kept. This holds also when writes fail, as removal needs no room. */
  lemma StaleRecordIsClearedOnLoad(st: Storage, today: string, v: View)
    requires st.readFault.None? && Stored(st, LastOpenedDate) != Some(today)
    ensures var s := LoadChestState(st, today, v);
            && s.thrown.None? && s.view == LockedView
            && s.store.items == st.items - {ChestOpen, CurrentMessage}
            && Stored(s.store, LastOpenedDate) == Stored(st, LastOpenedDate)
            && Stored(s.store, LastMessageIndex) == Stored(st, LastMessageIndex)
  {
    assert st.items - {ChestOpen} - {CurrentMessage} == st.items - {ChestOpen, CurrentMessage};
  }

  /** On load with today's date but no open flag the chest is locked with an
      enabled button and storage is untouched; a click that day still draws nothing. */
  lemma SameDayWithoutFlagStaysLocked(st: Storage, today: string, v: View, animation: Reveal)
    requires st.readFault.None? && animation.Valid()
    requires Stored(st, LastOpenedDate) == Some(today) && Stored(st, ChestOpen) != Some("true")
    ensures var s := LoadChestState(st, today, v);
            && s == Step(st, LockedView, None, None)
            && var c := HandleChestClick(s.store, s.view, today, animation);
            && c.store == st && c.drawn.None?
  {
  }

  /** Clicking again on the day of a completed opening draws nothing, writes
      nothing and shows the same message. */
  lemma SecondClickSameDayShowsSameMessage(st: Storage, v: View, today: string, animation: Reveal, again: Reveal)
    requires st.Healthy() && animation.Valid() && again.Valid() && animation.triggerFound && animation.day == today
    requires Stored(st, LastOpenedDate) != Some(today)
    ensures var first := HandleChestClick(st, v, today, animation);
            var second := HandleChestClick(first.store, first.view, today, again);
            && first.drawn.Some? && second.drawn.None? && second.store == first.store
            && second.view.message == first.view.message
  {
    CompletedOpenCommitsState(st, v, today, animation);
  }

  /** Reloading on the day of a completed opening restores the open chest
      with the same message and a disabled button. */
  lemma ReloadSameDayRestoresOpenChest(st: Storage, v: View, today: string, animation: Reveal, initial: View)
    requires st.Healthy() && animation.Valid() && animation.triggerFound && animation.day == today
    requires Stored(st, LastOpenedDate) != Some(today)
    ensures var first := HandleChestClick(st, v, today, animation);
            var reload := LoadChestState(first.store, today, initial);
            && reload.store == first.store && reload.thrown.None?
            && reload.view.lidOpen && reload.view.buttonDisabled
            && reload.view.message == first.view.message
  {
    var first := HandleChestClick(st, v, today, animation);
    CompletedOpenCommitsState(st, v, today, animation);
    var i := first.drawn.value;
    LoveMessagesAreNonEmpty(i);
    assert Stored(first.store, CurrentMessage) == Some(LoveMessages[i]);
    assert Stored(first.store, LastOpenedDate) == Some(today);
    assert Stored(first.store, ChestOpen) == Some("true");
    var reload := LoadChestState(first.store, today, initial);
    assert reload.view.lidOpen;
    assert reload == ShowSavedMessage(first.store, initial.(lidOpen := true, buttonLabel := ComeBackLabel, buttonDisabled := true));
  }

  /** Opening on one day, reloading on a later day and opening again never
      draws the same message twice in a row. */
  lemma NextDayDrawsAnotherMessage(st: Storage, v: View, day1: string, animation1: Reveal,
                                   day2: string, initial: View, animation2: Reveal)
    requires st.Healthy() && animation1.Valid() && animation1.triggerFound && animation1.day == day1
    requires animation2.Valid() && animation2.triggerFound && day2 != day1
    requires Stored(st, LastOpenedDate) != Some(day1)
    ensures var first := HandleChestClick(st, v, day1, animation1);
            var reload := LoadChestState(first.store, day2, initial);
            var second := HandleChestClick(reload.store, reload.view, day2, animation2);
            && first.drawn.Some? && second.drawn.Some?
            && second.drawn.value != first.drawn.value
  {
    var first := HandleChestClick(st, v, day1, animation1);
    CompletedOpenCommitsState(st, v, day1, animation1);
    StaleRecordIsClearedOnLoad(first.store, day2, initial);
    var reload := LoadChestState(first.store, day2, initial);
    assert GetLastMessageIndex(reload.store) == GetLastMessageIndex(first.store);
  }

  /** After a completed opening the button is disabled, so any later click,
      on any day, changes nothing until the page is loaded again. */
  lemma CompletedOpenIgnoresLaterClicks(p: Page, today: string, animation: Reveal, later: string, again: Reveal)
    requires p.listening && !p.view.buttonDisabled && p.store.Healthy()
    requires animation.Valid() && animation.triggerFound && again.Valid()
    requires Stored(p.store, LastOpenedDate) != Some(today)
    ensures var q := Click(p, today, animation);
            && q.listening && q.view.buttonDisabled && q.store != p.store
            && Click(q, later, again) == q
  {
    CompletedOpenCommitsState(p.store, p.view, today, animation);
  }

  /** Unreadable storage stops the page before the listener is attached, so
      clicks do nothing. */
  lemma UnreadableStorageLeavesChestInert(st: Storage, today: string, initial: View, animation: Reveal)
    requires st.readFault.Some? && animation.Valid()
    ensures var p := PageLoad(st, today, initial);
            !p.listening && Click(p, today, animation) == p && p.store == st
  {
  }
}
