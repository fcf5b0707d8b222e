/** The reminder dialog's form: the title length rule, the defaults a submit
    fills in, and the `setItem` call that files the reminder under the key of
    its date. */
module ReminderDialog {
  import opened Text
  import opened Dates
  import opened Storage
  import opened Calendar

  /** What the form hands to the submit handler. The five inputs the form
      registers are always strings; `fullDate` and `id` have no input, so they
      arrive undefined. */
  datatype FormValues = FormValues(
    title: string,
    city: string,
    fullDate: Option<Date>,
    time: string,
    date: string,
    color: string,
    id: Option<string>)

  /** The form's validation schema: a title whose JavaScript `length` (in
      UTF-16 code units) is at most 30. */
  const MaxTitleLength: nat := 30

  /** The title an empty title field turns into. */
  const DefaultTitle: string := "New event"

  /** The outcome of pressing Save: the schema rejects the form, or the
      handler files `reminder` under `key`. */
  datatype Submission = Rejected | Saved(key: string, reminder: Reminder)

  /** The inputs as the dialog opens on `selected`: each registered input
      starts at the selected reminder's field, and nothing is typed. */
  function UntouchedForm(selected: Reminder): FormValues
  {
    FormValues(selected.title, selected.city, None, selected.time, selected.date, selected.color, None)
  }

  /** The id of the saved reminder: the submitted id, or the selected
      reminder's id when none was submitted; a fresh one (`uuid()`) when that
      is empty. */
  function ChooseId(submitted: Option<string>, selectedId: string, freshId: string): (id: string)
    ensures submitted.None? && selectedId != "" ==> id == selectedId
    ensures submitted.None? && selectedId == "" ==> id == freshId
    ensures submitted.Some? && submitted.value != "" ==> id == submitted.value
    ensures submitted == Some("") ==> id == freshId
    ensures id == freshId || id == selectedId || (submitted.Some? && id == submitted.value)
    ensures freshId != "" ==> id != ""
  {
    var id := if submitted.Some? then submitted.value else selectedId;
    if id != "" then id else freshId
  }

  /** Validation followed by `onSubmitNewReminder` on the values `v`, for a
      dialog opened on a reminder with id `selectedId`. */
  function Submit(v: FormValues, selectedId: string, freshId: string): (s: Submission)
    ensures s.Rejected? <==> Utf16Length(v.title) > MaxTitleLength
    ensures s.Saved? ==> s.key == FormatDate(s.reminder.date)
    ensures s.Saved? ==> s.reminder.title != ""
    ensures s.Saved? ==> s.reminder.id == ChooseId(v.id, selectedId, freshId)
    ensures s.Saved? ==> s.reminder.title == v.title || (v.title == "" && s.reminder.title == DefaultTitle)
    ensures s.Saved? ==>
      && s.reminder.city == v.city && s.reminder.fullDate == v.fullDate && s.reminder.color == v.color
      && s.reminder.time == v.time && s.reminder.date == v.date
  {
    if Utf16Length(v.title) > MaxTitleLength then Rejected
    else
      var formattedDate := FormatDate(v.date);
      var newReminder := Reminder(
        city := v.city,
        date := v.date,
        fullDate := v.fullDate,
        title := if v.title != "" then v.title else DefaultTitle,
        id := ChooseId(v.id, selectedId, freshId),
        time := v.time,
        color := v.color);
      Saved(formattedDate, newReminder)
  }

  /** Pressing Save on the dialog. A rejected form leaves the store alone;
      otherwise `setItem` files the reminder. `freshId` stands for `uuid()`. */
  method OnSubmitNewReminder(store: ReminderStore, v: FormValues, selectedId: string, freshId: string)
    returns (saved: bool)
    requires store.Valid()
    modifies store
    ensures store.Valid()
    ensures saved <==> Utf16Length(v.title) <= MaxTitleLength
    ensures saved ==> store.hash == AfterSetItem(old(store.hash), Submit(v, selectedId, freshId).key,
                                                 Submit(v, selectedId, freshId).reminder)
    ensures !saved ==> store.hash == old(store.hash)
  {
    var submission := Submit(v, selectedId, freshId);
    if submission.Rejected? {
      return false;
    }
    store.SetItem(submission.key, submission.reminder);
    saved := true;
  }

  // ---------------------------------------------------------------------
  // The title rule

  /** Titles of at most 15 characters always pass the schema; titles of more
      than 30 characters never do. In between, the answer depends on how many
      characters lie outside the Basic Multilingual Plane. */
  lemma TitleLengthBounds(v: FormValues, selectedId: string, freshId: string)
    ensures |v.title| <= MaxTitleLength / 2 ==> Submit(v, selectedId, freshId).Saved?
    ensures |v.title| > MaxTitleLength ==> Submit(v, selectedId, freshId).Rejected?
  {
  }

  /** Sixteen birthday cakes (U+1F382) make 16 characters but 32 UTF-16
      code units, so the schema rejects them. */
  lemma AstralTitleRejected(v: FormValues, selectedId: string, freshId: string)
    requires |v.title| == 16 && forall i :: 0 <= i < |v.title| ==> v.title[i] == '\U{1F382}'
    ensures Submit(v, selectedId, freshId).Rejected?
  {
    Utf16LengthOfAstral(v.title);
  }

  // ---------------------------------------------------------------------
  // Properties of a save

  /** A save keeps every reminder filed under the key of its own date. */
  lemma SaveKeepsKeyedByDate(h: Index, v: FormValues, selectedId: string, freshId: string)
    requires KeyedByDate(h)
    ensures var s := Submit(v, selectedId, freshId);
      s.Saved? ==> KeyedByDate(AfterSetItem(h, s.key, s.reminder))
  {
    var s := Submit(v, selectedId, freshId);
    if s.Saved? {
      SetItemKeyedByDate(h, s.reminder);
    }
  }

  /** A saved reminder whose date field holds the "yyyy-MM-dd" text of day
      `d` shows up in the cell of `d`, whatever month the grid shows. */
  lemma SavedReminderInCell(h: Index, v: FormValues, selectedId: string, freshId: string,
                            d: Date, year: nat, month: nat, today: Date)
    requires WellFormed(h)
    requires ValidMonth(year, month) && ValidDate(d)
    requires v.date == IsoDate(d) && Utf16Length(v.title) <= MaxTitleLength
    ensures var s := Submit(v, selectedId, freshId);
      var cell := CellFor(d, year, month, today, AfterSetItem(h, s.key, s.reminder));
      cell.reminders.Some? && s.reminder in cell.reminders.value
  {
    var s := Submit(v, selectedId, freshId);
    FormatIsoDate(d);
    SetItemStoresOnce(h, s.key, s.reminder);
  }

  /** Saving the dialog of an existing reminder twice, unchanged, stores the
      same as saving it once. */
  lemma ResaveIsIdempotent(h: Index, v: FormValues, selectedId: string, freshId: string)
    requires WellFormed(h)
    requires v.id.None? && selectedId != ""
    ensures var s := Submit(v, selectedId, freshId);
      s.Saved? ==> AfterSetItem(AfterSetItem(h, s.key, s.reminder), s.key, s.reminder) == AfterSetItem(h, s.key, s.reminder)
  {
    var s := Submit(v, selectedId, freshId);
    if s.Saved? {
      SetItemIdempotent(h, s.key, s.reminder);
    }
  }

  /** Editing a reminder keeps its id, so the save replaces the stored entry
      in place when the date is unchanged: one entry with that id, and it is
      the new one. */
  lemma EditReplacesEntry(h: Index, v: FormValues, selected: Reminder, freshId: string)
    requires WellFormed(h) && selected.id != "" && v.id.None?
    requires FormatDate(v.date) in h && selected in h[FormatDate(v.date)]
    requires Utf16Length(v.title) <= MaxTitleLength
    ensures var s := Submit(v, selected.id, freshId);
      var before, after := h[s.key], AfterSetItem(h, s.key, s.reminder)[s.key];
      && s.reminder.id == selected.id
      && |after| == |before|
      && s.reminder in after
      && forall j :: 0 <= j < |after| && after[j].id == selected.id ==> after[j] == s.reminder
  {
    var s := Submit(v, selected.id, freshId);
    var k :| 0 <= k < |h[s.key]| && h[s.key][k] == selected;
    assert HasId(h[s.key], selected.id);
    SetItemReplaces(h, s.key, s.reminder);
    SetItemStoresOnce(h, s.key, s.reminder);
  }

  /** Editing a reminder's date does not move it: the entry under the old
      day's key stays, and the edited reminder is filed under the new day's
      key as well, with the same id. */
  lemma EditToOtherDayKeepsOldEntry(h: Index, v: FormValues, selected: Reminder, oldKey: string, freshId: string)
    requires WellFormed(h) && selected.id != "" && v.id.None?
    requires oldKey in h && selected in h[oldKey]
    requires FormatDate(v.date) != oldKey && Utf16Length(v.title) <= MaxTitleLength
    ensures var s := Submit(v, selected.id, freshId);
      var h' := AfterSetItem(h, s.key, s.reminder);
      && h'[oldKey] == h[oldKey]
      && HasId(h'[oldKey], selected.id)
      && HasId(h'[s.key], selected.id)
  {
    var s := Submit(v, selected.id, freshId);
    var k :| 0 <= k < |h[oldKey]| && h[oldKey][k] == selected;
    SetItemStoresOnce(h, s.key, s.reminder);
    var h' := AfterSetItem(h, s.key, s.reminder);
    var j :| 0 <= j < |h'[s.key]| && h'[s.key][j] == s.reminder;
  }

  /** Opening an existing reminder and pressing Save without typing stores
      it again under the key of its date, with every field kept except
      `fullDate`, which has no input and so arrives undefined. */
  lemma ResaveUntouched(selected: Reminder, freshId: string)
    requires selected.id != "" && selected.title != ""
    requires Utf16Length(selected.title) <= MaxTitleLength
    ensures Submit(UntouchedForm(selected), selected.id, freshId)
      == Saved(FormatDate(selected.date), selected.(fullDate := None))
  {
    var s := Submit(UntouchedForm(selected), selected.id, freshId);
    assert s.reminder == selected.(fullDate := None);
  }

  /** Saving the untouched dialog of an empty cell files a reminder titled
      "New event" at midnight, with a fresh id, under the cell's key. */
  lemma SaveUntouchedNewReminder(cell: Cell, freshId: string)
    ensures var s := Submit(UntouchedForm(DefaultNewReminder(cell)), "", freshId);
      && s.Saved?
      && s.key == KeyOf(cell.fullDate)
      && s.reminder.title == DefaultTitle
      && s.reminder.id == freshId
      && s.reminder.time == CellTime
      && s.reminder.fullDate.None?
  {
  }
}
