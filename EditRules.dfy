/**
 * The side-effect-free decisions of the entry editor: the password-repeat
 * classification, the icon chosen on commit, writing the attribute editor's
 * text back into the working map, and the order of the entry calls a commit
 * makes.
 */
module EditRules {
  import opened EntryModel

  /** How the repeat buffer relates to the password buffer, for the live hint. */
  datatype PasswordCheck = Match | PartialMatch | Mismatch

  /**
   * Equal buffers match; otherwise the repeat is "correct so far" exactly when
   * it is a leading part of the password.
   */
  function CheckPasswords(password: string, repeat: string): (r: PasswordCheck)
    ensures r == Match <==> password == repeat
    ensures r != Mismatch <==> |repeat| <= |password| && password[..|repeat|] == repeat
  {
    if password == repeat then Match
    else if repeat <= password then PartialMatch
    else Mismatch
  }

  /** A partial match is one that typing more characters completes to the password. */
  lemma PartialMatchCompletes(password: string, repeat: string)
    ensures CheckPasswords(password, repeat) == PartialMatch <==>
      password != repeat && exists rest :: repeat + rest == password
  {
    if CheckPasswords(password, repeat) == PartialMatch {
      assert repeat + password[|repeat|..] == password;
    }
    if exists rest :: repeat + rest == password {
      var rest :| repeat + rest == password;
      assert password[..|repeat|] == repeat;
    }
  }

  /** An empty repeat buffer is "correct so far" for any non-empty password. */
  lemma EmptyRepeatIsPartial(password: string)
    requires password != ""
    ensures CheckPasswords(password, "") == PartialMatch
  {
  }

  /** The icon selection the icon tab hands back: a UUID and a number. */
  datatype IconStruct = IconStruct(uuid: Uuid, number: int)

  /** The selection the icon tab is loaded with for an entry's icon. */
  function IconStructOf(icon: Icon): IconStruct {
    IconStruct(icon.CustomUuid(), icon.Number())
  }

  /** An icon an entry can hold: a non-negative number or a non-null UUID. */
  predicate UsableIcon(icon: Icon) {
    match icon
    case Standard(n) => 0 <= n
    case Custom(u) => !u.IsNull()
  }

  /**
   * The icon written on commit: a negative number falls back to the default
   * icon, a null UUID selects the numbered icon, anything else the custom icon.
   */
  function ResolveIcon(s: IconStruct): (icon: Icon)
    ensures UsableIcon(icon)
    ensures icon.Custom? <==> 0 <= s.number && !s.uuid.IsNull()
    ensures icon.Custom? ==> icon.uuid == s.uuid
    ensures icon.Standard? ==> icon.number == if s.number < 0 then DefaultIconNumber else s.number
  {
    if s.number < 0 then Standard(DefaultIconNumber)
    else if s.uuid.IsNull() then Standard(s.number)
    else Custom(s.uuid)
  }

  /** Loading a usable icon into the icon tab and committing it gives it back. */
  lemma IconRoundTrip(icon: Icon)
    requires UsableIcon(icon)
    ensures ResolveIcon(IconStructOf(icon)) == icon
  {
  }

  /** A commit that leaves the icon tab alone is a fixed point after the first. */
  lemma ResolveIconIdempotent(s: IconStruct)
    ensures ResolveIcon(IconStructOf(ResolveIcon(s))) == ResolveIcon(s)
  {
    IconRoundTrip(ResolveIcon(s));
  }

  /** The text the attribute editor shows for a view selection. */
  function SelectedText(attrs: Attributes, selection: Option<string>): string
    requires selection.Some? ==> selection.value in attrs
  {
    if selection.Some? then attrs[selection.value].value else ""
  }

  /**
   * Writes the editor buffer back into the attribute it belongs to (when
   * there is one), keeping that attribute's protected flag.
   */
  function FlushInto(attrs: Attributes, key: Option<string>, text: string): (r: Attributes)
    requires key.Some? ==> key.value in attrs
    ensures r.Keys == attrs.Keys
    ensures forall k :: k in attrs ==> r[k].protected == attrs[k].protected
    ensures forall k :: k in attrs && key != Some(k) ==> r[k] == attrs[k]
    ensures key.Some? ==> r[key.value].value == text
  {
    if key.Some? then attrs[key.value := Attribute(text, attrs[key.value].protected)] else attrs
  }

  /** Flushing again with the text the attribute now holds changes nothing. */
  lemma FlushIdempotent(attrs: Attributes, key: Option<string>, text: string)
    requires key.Some? ==> key.value in attrs
    ensures FlushInto(FlushInto(attrs, key, text), key, text) == FlushInto(attrs, key, text)
  {
  }

  predicate IsWrite(c: EntryCall) {
    c.SetFields? || c.CopyCustomKeys? || c.SetAttachments? || c.SetIcon?
  }

  /**
   * The entry calls of a successful commit: prune the deleted history items,
   * then (when editing an existing entry) open the update bracket, write all
   * fields, and close the bracket. `pruned` is the history the bracket opens on.
   */
  function CommitCalls(create: bool, deleted: seq<Snapshot>, pruned: seq<Snapshot>): (calls: seq<EntryCall>)
    ensures |calls| == if create then 5 else 7
    ensures calls[0] == RemoveHistoryItems(deleted)
  {
    var writes := [SetFields, CopyCustomKeys, SetAttachments, SetIcon];
    [RemoveHistoryItems(deleted)]
      + (if create then writes else [BeginUpdate(pruned)] + writes + [EndUpdate])
  }

  /**
   * The entry's history after a successful commit: the history without the
   * pending deletions, followed, when an existing entry was edited, by the
   * item the closing update bracket records, if it records one.
   */
  function CommittedHistory(create: bool, history: seq<Snapshot>, deleted: seq<Snapshot>,
                            recorded: Option<Snapshot>): (r: seq<Snapshot>)
    ensures var pruned := WithoutItems(history, deleted);
      && |pruned| <= |r| <= |pruned| + 1 && r[..|pruned|] == pruned
      && (create || recorded.None? ==> r == pruned)
      && (!create && recorded.Some? ==> |r| == |pruned| + 1 && r[|pruned|] == recorded.value)
  {
    WithoutItems(history, deleted) + (if create then [] else RecordedItems(recorded))
  }

  /** History is pruned exactly once, before the update bracket is opened. */
  lemma PruneBeforeBracket(create: bool, deleted: seq<Snapshot>, pruned: seq<Snapshot>)
    ensures var calls := CommitCalls(create, deleted, pruned);
      && calls[0] == RemoveHistoryItems(deleted)
      && (forall k :: 0 < k < |calls| ==> !calls[k].RemoveHistoryItems?)
      && (forall k :: 0 <= k < |calls| && calls[k].BeginUpdate? ==> calls[k].historyAtBegin == pruned)
  {
  }

  /**
   * The update bracket is opened and closed only when editing an existing
   * entry, and then it encloses every write.
   */
  lemma BracketOnlyWhenEditing(create: bool, deleted: seq<Snapshot>, pruned: seq<Snapshot>)
    ensures var calls := CommitCalls(create, deleted, pruned);
      && (create <==> forall k :: 0 <= k < |calls| ==> !calls[k].BeginUpdate? && !calls[k].EndUpdate?)
      && (!create ==>
            && calls[1].BeginUpdate? && calls[|calls| - 1].EndUpdate?
            && forall k :: 0 <= k < |calls| && IsWrite(calls[k]) ==> 1 < k < |calls| - 1)
      && |set k | 0 <= k < |calls| && IsWrite(calls[k])| == 4
  {
    var calls := CommitCalls(create, deleted, pruned);
    var base := if create then 1 else 2;
    if !create {
      assert calls[1].BeginUpdate?;
    }
    assert (set k | 0 <= k < |calls| && IsWrite(calls[k])) == {base, base + 1, base + 2, base + 3};
  }
}
