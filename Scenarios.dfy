/**
 * Whole editing sessions driven through the widget's operations, each
 * stating what the entry and the event log hold at the end. They show that
 * the operations' contracts compose into the sessions the editor supports.
 */
module Scenarios {
  import opened EntryModel
  import opened AttributeNames
  import opened EditRules
  import opened EditEntry

  /**
   * Adding an entry: a save with a repeat buffer that differs is refused and
   * keeps the session open; once the buffers agree, the save writes the title,
   * the password and the one inserted attribute, without an update bracket.
   */
  method AddEntryWithAttribute() returns (e: Entry, w: EditEntryWidget)
    ensures e.fields.title == "Bank" && e.fields.password == "secret"
    ensures e.customAttributes == map[BaseName := Attribute("1234", false)]
    ensures e.history == []
    ensures e.calls == CommitCalls(true, [], [])
    ensures w.events == [DifferentPasswordsWarning, EditFinished(true)]
    ensures w.Released()
  {
    e, w := RefusedSaveOfNewEntry();
    w.EditForm(w.main.form, "secret");
    w.InsertAttribute();
    assert Tried(0) == {};
    FirstFreeAfterTried(w.advanced.current.value, 0);
    assert w.advanced.current == Some(BaseName);
    w.EditAttributeText("1234");
    w.SaveEntry(None);
  }

  /** The first half of AddEntryWithAttribute: the save that is refused. */
  method RefusedSaveOfNewEntry() returns (e: Entry, w: EditEntryWidget)
    ensures fresh(e) && fresh(w)
    ensures w.Valid() && w.Open() && w.entry == e && w.create && !w.history
    ensures w.main.form == EmptyFields.(title := "Bank", password := "secret")
    ensures w.advanced.attributes == map[] && w.historyTab.deleted == []
    ensures w.events == [DifferentPasswordsWarning]
    ensures e.history == [] && e.calls == []
  {
    var db := new Database({});
    e := new Entry(EmptyFields, map[], map[], Standard(DefaultIconNumber), []);
    w := new EditEntryWidget();
    w.LoadEntry(e, true, false, db);
    w.EditForm(EmptyFields.(title := "Bank", password := "secret"), "secre");
    assert w.main.repeatCheck == PartialMatch;
    w.SaveEntry(None);
  }

  /**
   * Deleting all history rows and then saving, outside history view and with
   * agreeing password buffers, prunes every item the entry held before the
   * field writes. What remains is at most the one item the closing update
   * bracket records, and nothing when the entry is being created.
   */
  method DeleteAllThenSave(w: EditEntryWidget, recorded: Option<Snapshot>)
    requires w.Valid() && w.Open() && !w.history && w.PasswordsEqual()
    modifies w, w.entry
    ensures w.Released() && w.events == old(w.events) + [EditFinished(true)]
    ensures old(w.entry).history == if old(w.create) then [] else RecordedItems(recorded)
    ensures |old(w.entry).history| <= 1
    ensures old(w.entry).calls ==
      old(w.entry.calls) + CommitCalls(old(w.create), old(w.historyTab.deleted + w.historyTab.rows), [])
  {
    ghost var e := w.entry;
    ghost var items := e.history;
    w.DeleteAllHistoryEntries();
    ghost var deleted := w.historyTab.deleted;
    assert multiset(deleted) == multiset(items);
    forall i | 0 <= i < |items| ensures items[i] in deleted {
      assert items[i] in multiset(items);
    }
    w.SaveEntry(recorded);
    PrunedAll(items, deleted);
  }

  /** Pruning a history of items that are all pending deletion leaves it empty. */
  lemma {:induction false} PrunedAll(items: seq<Snapshot>, deleted: seq<Snapshot>)
    requires forall i :: 0 <= i < |items| ==> items[i] in deleted
    ensures WithoutItems(items, deleted) == []
  {
    if items != [] {
      PrunedAll(items[1..], deleted);
    }
  }

  /**
   * Cancelling the edit of an entry whose custom icon the database no longer
   * holds resets the icon to the default one and changes nothing else.
   */
  method CancelWithDanglingIcon() returns (e: Entry)
    ensures e.icon == Standard(DefaultIconNumber)
    ensures e.calls == [SetIcon]
  {
    var db := new Database({Uuid(7)});
    e := new Entry(EmptyFields, map[], map[], Custom(Uuid(9)), []);
    var w := new EditEntryWidget();
    w.LoadEntry(e, false, false, db);
    w.Cancel();
  }

  /** Saving in history view closes the session and leaves the entry as it was. */
  method SaveInHistoryView() returns (e: Entry, w: EditEntryWidget)
    ensures e.fields == EmptyFields.(title := "old") && e.calls == []
    ensures w.events == [EditFinished(false)]
  {
    var db := new Database({});
    e := new Entry(EmptyFields.(title := "old"), map[], map[], Standard(1), [Snapshot(4)]);
    w := new EditEntryWidget();
    w.LoadEntry(e, false, true, db);
    w.SaveEntry(None);
  }
}
