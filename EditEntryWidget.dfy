/**
 * The entry editing session of EditEntryWidget, without the widgets: the
 * mode flags, the form buffers, the working attribute and attachment maps,
 * the attribute cursor with its editor buffer, the history tab's rows and
 * pending deletions, and the entry/database references. Emitted signals
 * and message boxes are recorded in a ghost event log.
 *
 * The current index of a list view is an input to the operations that read
 * it. The synchronous "current row changed" notification that re-enters
 * UpdateCurrentAttribute is modelled as an explicit call where the source
 * changes the attribute view's current row.
 */
module EditEntry {
  import opened EntryModel
  import opened AttributeNames
  import opened EditRules

  datatype Signal =
    | EditFinished(accepted: bool)
    | HistoryEntryActivated(item: Snapshot)
    | DifferentPasswordsWarning

  const EmptyFields := Fields("", "", "", "", false, Timestamp(0), "")

  /** The main and notes tabs: the field buffers, the repeat buffer and its hint. */
  datatype MainTab = MainTab(form: Fields, passwordRepeat: string, repeatCheck: PasswordCheck)
  {
    /** The repeat hint agrees with the two password buffers. */
    predicate HintCurrent() {
      repeatCheck == CheckPasswords(form.password, passwordRepeat)
    }
  }

  /**
   * The advanced tab: the working attribute and attachment maps, the
   * attribute view's current row (`selected`), the row the editor buffer
   * belongs to (`current`) and the editor buffer (`text`).
   */
  datatype AdvancedTab = AdvancedTab(
    attributes: Attributes,
    attachments: Attachments,
    selected: Option<string>,
    current: Option<string>,
    text: string)
  {
    /** Both attribute cursors point at existing keys of the working map. */
    predicate CursorsValid() {
      && (selected.Some? ==> selected.value in attributes)
      && (current.Some? ==> current.value in attributes)
    }
  }

  /** The history tab: the rows shown, the pending deletions and the buttons. */
  datatype HistoryTab = HistoryTab(
    rows: seq<Snapshot>,
    deleted: seq<Snapshot>,
    showEnabled: bool,
    restoreEnabled: bool,
    deleteEnabled: bool,
    deleteAllEnabled: bool)

  class EditEntryWidget {
    var entry: Entry?
    var database: Database?
    var create: bool
    var history: bool

    var main: MainTab
    var advanced: AdvancedTab
    var iconChoice: IconStruct
    var historyTab: HistoryTab

    ghost var events: seq<Signal>

    ghost predicate Valid()
      reads this, entry
    {
      && advanced.CursorsValid()
      && main.HintCurrent()
      && !historyTab.restoreEnabled
      // outside history view, the shown rows and the pending deletions are the entry's history
      && (entry != null && !history ==>
            multiset(historyTab.rows) + multiset(historyTab.deleted) == multiset(entry.history))
    }

    ghost predicate Open()
      reads this
    {
      entry != null && database != null
    }

    /** No entry is bound and both working maps are empty. */
    ghost predicate Released()
      reads this
    {
      && entry == null && database == null
      && advanced.attributes == map[] && advanced.attachments == map[]
      && advanced.selected == None && advanced.current == None
    }

    constructor ()
      ensures Valid() && Released() && events == []
      ensures historyTab.rows == [] && historyTab.deleted == []
    {
      entry, database := null, null;
      create, history := false, false;
      main := MainTab(EmptyFields, "", Match);
      advanced := AdvancedTab(map[], map[], None, None, "");
      iconChoice := IconStruct(NullUuid, DefaultIconNumber);
      historyTab := HistoryTab([], [], false, false, false, false);
      events := [];
    }

    /** The buffers of the two password fields hold the same text. */
    predicate PasswordsEqual()
      reads this
      ensures PasswordsEqual() <==> CheckPasswords(main.form.password, main.passwordRepeat) == Match
    {
      main.form.password == main.passwordRepeat
    }

    /** Recolours the repeat field: plain when equal, "correct so far" on a prefix, else error. */
    method SetPasswordCheckColors()
      modifies this`main
      ensures main.form == old(main.form) && main.passwordRepeat == old(main.passwordRepeat)
      ensures main.HintCurrent()
    {
      main := main.(repeatCheck := CheckPasswords(main.form.password, main.passwordRepeat));
    }

    /**
     * The session shows an entry with these fields, custom attributes,
     * attachments, icon and history items: the tabs hold them (the password in
     * both password buffers), the first attribute row is current, and outside
     * history view the history tab lists the items, with "delete all" enabled
     * exactly when there are some.
     */
    ghost predicate Shows(fields: Fields, attrs: Attributes, atts: Attachments, icon: Icon, items: seq<Snapshot>)
      reads this
    {
      && main == MainTab(fields, fields.password, Match)
      && advanced.attributes == attrs && advanced.attachments == atts
      && advanced.CursorsValid()
      && (attrs == map[] ==> advanced.selected == None && advanced.text == "")
      && (attrs != map[] ==>
            advanced.selected.Some? && advanced.text == SelectedText(attrs, advanced.selected))
      && advanced.current == (if history then None else advanced.selected)
      && iconChoice == IconStructOf(icon)
      && (!history ==> historyTab.rows == items && historyTab.deleted == [])
      && historyTab.deleteAllEnabled == (!history && |items| > 0)
    }

    /** The session shows `e`. */
    ghost predicate Loaded(e: Entry)
      reads this, e
    {
      Shows(e.fields, e.customAttributes, e.attachments, e.icon, e.history)
    }

    /** Opens a session on `e`. */
    method LoadEntry(e: Entry, create: bool, history: bool, db: Database)
      modifies this`entry, this`database, this`create, this`history, this`main, this`advanced,
        this`iconChoice, this`historyTab
      ensures Valid() && Open() && Loaded(e)
      ensures entry == e && database == db && this.create == create && this.history == history
      ensures !historyTab.showEnabled && !historyTab.restoreEnabled && !historyTab.deleteEnabled
      ensures history ==> historyTab.rows == old(historyTab.rows) && historyTab.deleted == old(historyTab.deleted)
    {
      entry, database, this.create, this.history := e, db, create, history;
      historyTab := historyTab.(showEnabled := false, restoreEnabled := false,
                                deleteEnabled := false, deleteAllEnabled := false);
      SetForms(e.fields, e.customAttributes, e.attachments, e.icon, e.history);
    }

    /** Fills the tabs from an entry; outside history view also the history tab. */
    method SetForms(fields: Fields, attrs: Attributes, atts: Attachments, icon: Icon, items: seq<Snapshot>)
      requires !historyTab.deleteAllEnabled
      modifies this`main, this`advanced, this`iconChoice, this`historyTab
      ensures Shows(fields, attrs, atts, icon, items)
      ensures history ==> historyTab == old(historyTab)
      ensures !history ==> historyTab == old(historyTab).(rows := items, deleted := [], deleteAllEnabled := |items| > 0)
    {
      main := main.(form := fields, passwordRepeat := fields.password);
      SetPasswordCheckColors();
      advanced := advanced.(attachments := atts);
      LoadAttributes(attrs);
      iconChoice := IconStructOf(icon);
      if !history {
        // the history model is reset to the items, so no deletion is pending
        historyTab := historyTab.(rows := items, deleted := []);
        if |items| > 0 {
          historyTab := historyTab.(deleteAllEnabled := true);
        }
      }
    }

    /**
     * Replaces the working attribute map, which resets the attribute view;
     * then its first row, if any, becomes the view's current row.
     */
    method LoadAttributes(attrs: Attributes)
      modifies this`advanced
      ensures advanced.CursorsValid() && advanced.attributes == attrs
      ensures advanced.attachments == old(advanced.attachments)
      ensures attrs == map[] ==> advanced.selected == None && advanced.text == ""
      ensures attrs != map[] ==>
        advanced.selected.Some? && advanced.text == SelectedText(attrs, advanced.selected)
      ensures advanced.current == if history then None else advanced.selected
    {
      advanced := advanced.(attributes := attrs, selected := None, current := None);
      if attrs != map[] {
        var first :| first in attrs;
        UpdateCurrentAttribute(Some(first));
      } else {
        advanced := advanced.(text := "");
      }
    }

    /**
     * The attribute view's current row moved to `newSelection`. Outside history
     * view, the editor buffer is first written back into the row it belonged to;
     * then the buffer shows the new row. In history view the map is never written.
     */
    method UpdateCurrentAttribute(newSelection: Option<string>)
      requires advanced.CursorsValid()
      requires newSelection.Some? ==> newSelection.value in advanced.attributes
      modifies this`advanced
      ensures advanced.CursorsValid() && advanced.selected == newSelection
      ensures advanced.attachments == old(advanced.attachments)
      ensures history ==>
        && advanced.attributes == old(advanced.attributes) && advanced.current == old(advanced.current)
        && advanced.text == SelectedText(advanced.attributes, newSelection)
      ensures !history && old(advanced.current) == newSelection ==>
        && advanced.attributes == old(advanced.attributes) && advanced.current == old(advanced.current)
        && advanced.text == old(advanced.text)
      ensures !history && old(advanced.current) != newSelection ==>
        && advanced.attributes == FlushInto(old(advanced.attributes), old(advanced.current), old(advanced.text))
        && advanced.current == newSelection
        && advanced.text == SelectedText(old(advanced.attributes), newSelection)
    {
      var a := advanced.(selected := newSelection);
      if history {
        a := a.(text := SelectedText(a.attributes, newSelection));
      } else if a.current != newSelection {
        if a.current.Some? {
          var key := a.current.value;
          a := a.(attributes := a.attributes[key := Attribute(a.text, a.attributes[key].protected)]);
        }
        a := a.(text := SelectedText(a.attributes, newSelection), current := newSelection);
      }
      advanced := a;
    }

    /**
     * Adds an attribute under the first free "New attribute" name, with an
     * empty value, and makes it the current row (which first writes the editor
     * buffer back into the previous current row).
     */
    method InsertAttribute()
      requires Valid() && !history
      modifies this`advanced
      ensures Valid()
      ensures advanced.current.Some? && advanced.selected == advanced.current
      ensures advanced.attachments == old(advanced.attachments)
      ensures var name := advanced.current.value;
        && FirstFreeName(name, old(advanced.attributes).Keys)
        && advanced.attributes ==
             FlushInto(old(advanced.attributes), old(advanced.current), old(advanced.text))[name := Attribute("", false)]
        && advanced.text == ""
    {
      ghost var before := advanced;
      var name, attempt := FreshAttributeName(advanced.attributes.Keys);
      advanced := advanced.(attributes := advanced.attributes[name := Attribute("", false)]);
      UpdateCurrentAttribute(Some(name));
      assert advanced.attributes == FlushInto(before.attributes, before.current, before.text)[name := Attribute("", false)];
      assert FirstFreeName(name, before.attributes.Keys);
    }

    /** Removes the attribute of the view's current row, if there is one. */
    method RemoveCurrentAttribute()
      requires Valid() && !history
      modifies this`advanced
      ensures Valid()
      ensures advanced.attachments == old(advanced.attachments) && advanced.text == old(advanced.text)
      ensures old(advanced.selected) == None ==> advanced == old(advanced)
      ensures old(advanced.selected).Some? ==>
        var key := old(advanced.selected).value;
        && advanced.attributes == old(advanced.attributes) - {key}
        && advanced.selected == None
        && advanced.current == if old(advanced.current) == Some(key) then None else old(advanced.current)
    {
      if advanced.selected.Some? {
        var key := advanced.selected.value;
        // the removed row's indexes become invalid
        var current := if advanced.current == Some(key) then None else advanced.current;
        advanced := advanced.(attributes := advanced.attributes - {key}, selected := None, current := current);
      }
    }

    /** The user types into the attribute editor (enabled only on a current row). */
    method EditAttributeText(text: string)
      requires !history && advanced.selected.Some?
      modifies this`advanced
      ensures advanced == old(advanced).(text := text)
    {
      advanced := advanced.(text := text);
    }

    /** The user edits the form fields; the repeat hint follows the password buffers. */
    method EditForm(fields: Fields, repeat: string)
      requires !history
      modifies this`main
      ensures main.form == fields && main.passwordRepeat == repeat
      ensures main.repeatCheck == CheckPasswords(fields.password, repeat)
    {
      main := main.(form := fields, passwordRepeat := repeat);
      SetPasswordCheckColors();
    }

    /** The user picks an icon in the icon tab. */
    method SelectIcon(choice: IconStruct)
      requires !history
      modifies this`iconChoice
      ensures iconChoice == choice
    {
      iconChoice := choice;
    }

    /** Stores a file's bytes as an attachment; a name already present is overwritten. */
    method InsertAttachment(fileName: string, data: Bytes)
      requires !history
      modifies this`advanced
      ensures advanced == old(advanced).(attachments := old(advanced.attachments)[fileName := data])
    {
      advanced := advanced.(attachments := advanced.attachments[fileName := data]);
    }

    /** Removes the attachment of the attachment view's current row, if there is one. */
    method RemoveCurrentAttachment(current: Option<string>)
      requires !history
      requires current.Some? ==> current.value in advanced.attachments
      modifies this`advanced
      ensures current.None? ==> advanced == old(advanced)
      ensures current.Some? ==>
        advanced == old(advanced).(attachments := old(advanced.attachments) - {current.value})
    {
      if current.None? {
        return;
      }
      advanced := advanced.(attachments := advanced.attachments - {current.value});
    }

    /** Enables show and delete exactly when a history row is current; restore never. */
    method UpdateHistoryButtons(current: Option<nat>)
      modifies this`historyTab
      ensures historyTab.rows == old(historyTab.rows) && historyTab.deleted == old(historyTab.deleted)
      ensures historyTab.deleteAllEnabled == old(historyTab.deleteAllEnabled)
      ensures historyTab.showEnabled == current.Some? && historyTab.deleteEnabled == current.Some?
      ensures !historyTab.restoreEnabled
    {
      if current.Some? {
        historyTab := historyTab.(showEnabled := true, restoreEnabled := false, deleteEnabled := true);
      } else {
        historyTab := historyTab.(showEnabled := false, restoreEnabled := false, deleteEnabled := false);
      }
    }

    /** Asks for the history item of the current row to be shown. */
    method ShowHistoryEntry(current: Option<nat>)
      requires !history
      requires current.Some? ==> current.value < |historyTab.rows|
      modifies this`events
      ensures events == old(events) +
        if current.Some? then [HistoryEntryActivated(historyTab.rows[current.value])] else []
    {
      if current.Some? {
        events := events + [HistoryEntryActivated(historyTab.rows[current.value])];
      }
    }

    /** Moves the current history row to the pending deletions. */
    method DeleteHistoryEntry(current: Option<nat>)
      requires Valid()
      requires current.Some? ==> current.value < |historyTab.rows|
      modifies this`historyTab
      ensures Valid()
      ensures current.None? ==> historyTab == old(historyTab)
      ensures current.Some? ==>
        var i := current.value;
        var rows := old(historyTab.rows);
        historyTab == old(historyTab).(rows := rows[..i] + rows[i + 1..],
                                       deleted := old(historyTab.deleted) + [rows[i]],
                                       deleteAllEnabled := |rows| > 1)
    {
      if current.Some? {
        var i := current.value;
        var rows := historyTab.rows;
        assert rows == rows[..i] + [rows[i]] + rows[i + 1..];
        var remaining := rows[..i] + rows[i + 1..];
        historyTab := historyTab.(rows := remaining, deleted := historyTab.deleted + [rows[i]],
                                  deleteAllEnabled := |remaining| > 0);
      }
    }

    /** Moves every remaining history row to the pending deletions. */
    method DeleteAllHistoryEntries()
      requires Valid()
      modifies this`historyTab
      ensures Valid()
      ensures historyTab == old(historyTab).(rows := [], deleted := old(historyTab.deleted + historyTab.rows),
                                             deleteAllEnabled := false)
    {
      historyTab := historyTab.(rows := [], deleted := historyTab.deleted + historyTab.rows,
                                deleteAllEnabled := false);
    }

    /**
     * The steps every exit of a session ends with: release the entry and
     * database, clear both working maps (which invalidates the attribute
     * cursors) and, outside history view, the history tab; then signal that
     * editing finished.
     */
    method ReleaseSession(clearHistory: bool, accepted: bool)
      modifies this`entry, this`database, this`advanced, this`historyTab, this`events
      ensures Released() && advanced.text == old(advanced.text)
      ensures clearHistory ==> historyTab == old(historyTab).(rows := [], deleted := [])
      ensures !clearHistory ==> historyTab == old(historyTab)
      ensures events == old(events) + [EditFinished(accepted)]
    {
      entry, database := null, null;
      advanced := advanced.(attributes := map[], attachments := map[], selected := None, current := None);
      if clearHistory {
        historyTab := historyTab.(rows := [], deleted := []);
      }
      events := events + [EditFinished(accepted)];
    }

    /**
     * The dialog was accepted. History view closes without touching the entry;
     * different password buffers keep the session open and unchanged;
     * otherwise the working state is committed to the entry. The form
     * buffers, the mode and the icon choice are never changed. `recorded` is
     * the history item the entry records when its update bracket closes, if
     * it records one (see Entry.EndUpdate).
     */
    method SaveEntry(recorded: Option<Snapshot>)
      requires Valid() && Open()
      modifies this`entry, this`database, this`advanced, this`historyTab, this`events, entry
      ensures Valid()
      ensures old(history) ==>
        && Released()
        && historyTab == old(historyTab)
        && unchanged(old(entry))
        && events == old(events) + [EditFinished(false)]
      ensures !old(history) && !old(PasswordsEqual()) ==>
        && entry == old(entry) && database == old(database)
        && advanced == old(advanced) && historyTab == old(historyTab)
        && unchanged(old(entry))
        && events == old(events) + [DifferentPasswordsWarning]
      ensures !old(history) && old(PasswordsEqual()) ==>
        var e := old(entry);
        && Released() && historyTab.rows == [] && historyTab.deleted == []
        && events == old(events) + [EditFinished(true)]
        && e.fields == old(main.form)
        && e.customAttributes == FlushInto(old(advanced.attributes), old(advanced.selected), old(advanced.text))
        && e.attachments == old(advanced.attachments)
        && e.icon == ResolveIcon(old(iconChoice))
        && var pruned := WithoutItems(old(e.history), old(historyTab.deleted));
        && e.history == CommittedHistory(old(create), old(e.history), old(historyTab.deleted), recorded)
        && e.calls == old(e.calls) + CommitCalls(old(create), old(historyTab.deleted), pruned)
        && (Distinct(old(e.history)) ==>
              && multiset(pruned) == multiset(old(historyTab.rows))
              && |pruned| == |old(e.history)| - |old(historyTab.deleted)|)
    {
      if history {
        ReleaseSession(false, false);
        return;
      }

      if !PasswordsEqual() {
        events := events + [DifferentPasswordsWarning];
        return;
      }

      Commit(recorded);
    }

    /**
     * Commits the working state: write the editor buffer back into the view's
     * current attribute, prune the pending history deletions, write the entry
     * (see WriteEntry), release the session and signal success.
     */
    method Commit(recorded: Option<Snapshot>)
      requires Valid() && Open() && !history && PasswordsEqual()
      modifies this`entry, this`database, this`advanced, this`historyTab, this`events, entry
      ensures Valid() && Released() && historyTab.rows == [] && historyTab.deleted == []
      ensures events == old(events) + [EditFinished(true)]
      ensures var e := old(entry);
        && e.fields == old(main.form)
        && e.customAttributes == FlushInto(old(advanced.attributes), old(advanced.selected), old(advanced.text))
        && e.attachments == old(advanced.attachments)
        && e.icon == ResolveIcon(old(iconChoice))
        && var pruned := WithoutItems(old(e.history), old(historyTab.deleted));
        && e.history == CommittedHistory(old(create), old(e.history), old(historyTab.deleted), recorded)
        && e.calls == old(e.calls) + CommitCalls(old(create), old(historyTab.deleted), pruned)
        && (Distinct(old(e.history)) ==>
              && multiset(pruned) == multiset(old(historyTab.rows))
              && |pruned| == |old(e.history)| - |old(historyTab.deleted)|)
    {
      var e := entry;
      var rows, deleted := historyTab.rows, historyTab.deleted;
      if Distinct(e.history) {
        PrunedHistoryIsRemainingRows(e.history, rows, deleted);
      }
      var working := FlushInto(advanced.attributes, advanced.selected, advanced.text);
      advanced := advanced.(attributes := working, current := None);
      WriteEntry(e, main.form, working, advanced.attachments, iconChoice, deleted, create, recorded);
      ReleaseSession(true, true);
    }

    /**
     * The dialog was rejected. Outside history view the only change that may
     * reach the entry is resetting a custom icon that the database no longer
     * holds to the default icon.
     */
    method Cancel()
      requires Valid() && Open()
      modifies this`entry, this`database, this`advanced, this`historyTab, this`events, entry
      ensures Valid() && Released()
      ensures events == old(events) + [EditFinished(false)]
      ensures old(history) ==> historyTab == old(historyTab) && unchanged(old(entry))
      ensures !old(history) ==>
        var e := old(entry);
        var dangling := !old(e.icon.CustomUuid().IsNull()) && !old(database.ContainsCustomIcon(e.icon.CustomUuid()));
        && historyTab.rows == [] && historyTab.deleted == []
        && e.icon == (if dangling then Standard(DefaultIconNumber) else old(e.icon))
        && e.calls == old(e.calls) + (if dangling then [SetIcon] else [])
        && e.fields == old(e.fields) && e.customAttributes == old(e.customAttributes)
        && e.attachments == old(e.attachments) && e.history == old(e.history)
    {
      if history {
        ReleaseSession(false, false);
        return;
      }

      var e := entry;
      if !e.icon.CustomUuid().IsNull() && !database.ContainsCustomIcon(e.icon.CustomUuid()) {
        e.SetIconTo(Standard(DefaultIconNumber));
      }
      ReleaseSession(true, false);
    }
  }

  /**
   * The entry calls of a successful commit, in the source's order: prune
   * history first, then the field writes, bracketed by begin/end update
   * unless the entry is being created.
   */
  method WriteEntry(e: Entry, fields: Fields, working: Attributes, atts: Attachments,
                    iconChoice: IconStruct, deleted: seq<Snapshot>, create: bool, recorded: Option<Snapshot>)
    modifies e
    ensures e.fields == fields && e.customAttributes == working && e.attachments == atts
    ensures e.icon == ResolveIcon(iconChoice)
    ensures e.history == CommittedHistory(create, old(e.history), deleted, recorded)
    ensures e.calls == old(e.calls) + CommitCalls(create, deleted, WithoutItems(old(e.history), deleted))
  {
    // pruning stands before the update bracket, so it is not itself recorded as a change
    e.RemoveHistory(deleted);
    if !create {
      e.BeginUpdate();
    }
    WriteFields(e, fields, working, atts, iconChoice);
    if !create {
      e.EndUpdate(recorded);
    }
  }

  /** The field writes of a commit; the icon choice is resolved as ResolveIcon states. */
  method WriteFields(e: Entry, fields: Fields, working: Attributes, atts: Attachments, iconChoice: IconStruct)
    modifies e`fields, e`customAttributes, e`attachments, e`icon, e`calls
    ensures e.fields == fields && e.customAttributes == working && e.attachments == atts
    ensures e.icon == ResolveIcon(iconChoice)
    ensures e.calls == old(e.calls) + [SetFields, CopyCustomKeys, SetAttachments, SetIcon]
  {
    e.SetAllFields(fields);
    e.CopyCustomKeysFrom(working);
    e.SetAllAttachments(atts);
    e.SetIconTo(ResolveIcon(iconChoice));
  }
}
