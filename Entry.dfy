/**
 * The collaborators of the entry editor: the Entry record it edits, the
 * Database whose custom-icon store it consults, and the value types both
 * carry. Their own source files are not part of this model, so they are
 * described only as far as the editor uses them: plain fields, plus a ghost
 * call log for the operations whose internals are not described here
 * (the begin/end update bracket, copying custom attribute keys, pruning
 * history).
 */
module EntryModel {

  datatype Option<T> = None | Some(value: T)

  type Bytes = seq<bv8>

  /** A 128-bit UUID; the null UUID is the all-zero one. */
  datatype Uuid = Uuid(bits: nat) {
    predicate IsNull() { bits == 0 }
  }

  const NullUuid := Uuid(0)

  /** Expiry times are opaque here: the local/UTC conversions are not modelled. */
  datatype Timestamp = Timestamp(ticks: int)

  /** A custom attribute value and its "protected" (sensitive) flag. */
  datatype Attribute = Attribute(value: string, protected: bool)

  type Attributes = map<string, Attribute>
  type Attachments = map<string, Bytes>

  /** The scalar fields of an entry, as the main and notes tabs show them. */
  datatype Fields = Fields(
    title: string,
    username: string,
    url: string,
    password: string,
    expires: bool,
    expiryTime: Timestamp,
    notes: string)

  /** An entry's icon: one of the standard numbered icons, or a custom icon. */
  datatype Icon = Standard(number: int) | Custom(uuid: Uuid) {
    /** The custom icon UUID, null when a standard icon is set. */
    function CustomUuid(): (u: Uuid)
      ensures u.IsNull() || Custom?
    {
      if Custom? then uuid else NullUuid
    }

    /** The icon number; a custom icon reads as the default number. */
    function Number(): int {
      if Standard? then number else DefaultIconNumber
    }
  }

  const DefaultIconNumber: int := 0

  /** A prior version of an entry, kept in its history; identified by value. */
  datatype Snapshot = Snapshot(id: nat)

  /** The abstract entry operations the editor calls, in the order it calls them. */
  datatype EntryCall =
    | RemoveHistoryItems(items: seq<Snapshot>)
    | BeginUpdate(historyAtBegin: seq<Snapshot>)
    | SetFields
    | CopyCustomKeys
    | SetAttachments
    | SetIcon
    | EndUpdate

  ghost predicate Distinct<T>(s: seq<T>) {
    forall i, j :: 0 <= i < j < |s| ==> s[i] != s[j]
  }

  /** The history items the closing of an update bracket appends: at most one. */
  function RecordedItems(recorded: Option<Snapshot>): (items: seq<Snapshot>)
    ensures |items| <= 1
    ensures items == [] <==> recorded.None?
    ensures recorded.Some? ==> items[0] == recorded.value
  {
    if recorded.Some? then [recorded.value] else []
  }

  /** The history with every item listed in `items` taken out, order kept. */
  function WithoutItems(history: seq<Snapshot>, items: seq<Snapshot>): (r: seq<Snapshot>)
    ensures forall x :: x in r <==> x in history && x !in items
    ensures |r| <= |history|
  {
    if history == [] then []
    else if history[0] in items then WithoutItems(history[1..], items)
    else [history[0]] + WithoutItems(history[1..], items)
  }

  lemma {:induction false} WithoutItemsCount(history: seq<Snapshot>, items: seq<Snapshot>, x: Snapshot)
    ensures multiset(WithoutItems(history, items))[x] == if x in items then 0 else multiset(history)[x]
  {
    if history != [] {
      WithoutItemsCount(history[1..], items, x);
      assert history == [history[0]] + history[1..];
    }
  }

  lemma {:induction false} DistinctCount<T>(s: seq<T>, x: T)
    requires Distinct(s)
    ensures multiset(s)[x] == if x in s then 1 else 0
  {
    if s != [] {
      DistinctCount(s[1..], x);
      assert s == [s[0]] + s[1..];
    }
  }

  /**
   * Pruning a duplicate-free history of the items pending deletion leaves
   * exactly the items that were not deleted: when the displayed rows and the
   * pending deletions together are the history, what remains is the rows, and
   * the history shrinks by exactly the number of deletions.
   */
  lemma PrunedHistoryIsRemainingRows(history: seq<Snapshot>, rows: seq<Snapshot>, deleted: seq<Snapshot>)
    requires Distinct(history)
    requires multiset(rows) + multiset(deleted) == multiset(history)
    ensures multiset(WithoutItems(history, deleted)) == multiset(rows)
    ensures |WithoutItems(history, deleted)| == |history| - |deleted|
  {
    forall x ensures multiset(WithoutItems(history, deleted))[x] == multiset(rows)[x] {
      WithoutItemsCount(history, deleted, x);
      DistinctCount(history, x);
    }
    assert multiset(WithoutItems(history, deleted)) == multiset(rows);
    assert |multiset(rows)| + |multiset(deleted)| == |multiset(history)|;
  }

  /** The store of custom icons of a database, queried by UUID. */
  class Database {
    var customIcons: set<Uuid>

    constructor (icons: set<Uuid>)
      ensures customIcons == icons
    {
      customIcons := icons;
    }

    predicate ContainsCustomIcon(uuid: Uuid)
      reads this
    {
      uuid in customIcons
    }
  }

  /** A password entry. Field setters are direct writes; the rest is logged. */
  class Entry {
    var fields: Fields
    var customAttributes: Attributes
    var attachments: Attachments
    var icon: Icon
    var history: seq<Snapshot>
    ghost var calls: seq<EntryCall>

    constructor (f: Fields, attrs: Attributes, atts: Attachments, i: Icon, h: seq<Snapshot>)
      ensures fields == f && customAttributes == attrs && attachments == atts
      ensures icon == i && history == h && calls == []
    {
      fields, customAttributes, attachments, icon, history := f, attrs, atts, i, h;
      calls := [];
    }

    method RemoveHistory(items: seq<Snapshot>)
      modifies this`history, this`calls
      ensures history == WithoutItems(old(history), items)
      ensures calls == old(calls) + [RemoveHistoryItems(items)]
    {
      history := WithoutItems(history, items);
      calls := calls + [RemoveHistoryItems(items)];
    }

    method BeginUpdate()
      modifies this`calls
      ensures calls == old(calls) + [EntryCall.BeginUpdate(history)]
    {
      calls := calls + [EntryCall.BeginUpdate(history)];
    }

    /**
     * Closes the update bracket. When something changed inside it, the entry
     * records one history item; whether it does, and what the item holds, is
     * decided inside Entry, so `recorded` is that item, if any.
     */
    method EndUpdate(recorded: Option<Snapshot>)
      modifies this`history, this`calls
      ensures history == old(history) + RecordedItems(recorded)
      ensures calls == old(calls) + [EntryCall.EndUpdate]
    {
      if recorded.Some? {
        history := history + [recorded.value];
      }
      calls := calls + [EntryCall.EndUpdate];
    }

    method SetAllFields(f: Fields)
      modifies this`fields, this`calls
      ensures fields == f && calls == old(calls) + [SetFields]
    {
      fields := f;
      calls := calls + [SetFields];
    }

    /** Replaces the entry's custom attributes by the given ones. */
    method CopyCustomKeysFrom(attrs: Attributes)
      modifies this`customAttributes, this`calls
      ensures customAttributes == attrs && calls == old(calls) + [CopyCustomKeys]
    {
      customAttributes := attrs;
      calls := calls + [CopyCustomKeys];
    }

    method SetAllAttachments(atts: Attachments)
      modifies this`attachments, this`calls
      ensures attachments == atts && calls == old(calls) + [SetAttachments]
    {
      attachments := atts;
      calls := calls + [SetAttachments];
    }

    method SetIconTo(i: Icon)
      modifies this`icon, this`calls
      ensures icon == i && calls == old(calls) + [SetIcon]
    {
      icon := i;
      calls := calls + [SetIcon];
    }
  }
}
