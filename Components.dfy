/**
 * The note record and its helpers from Components.swift: the `Note` value with
 * its defaults and id-only hashing, the conversion of a cached Core Data record
 * into a `Note`, the UserDefaults persistence of the tombstone set, and the row
 * view's sync indicator and preview text.
 */
module Components {
  import opened Wrappers
  import Text

  datatype SyncState = NotSynced | Syncing | Synced

  /** A note. `timestamp` is the last-modified instant in abstract time units;
      equality is Swift's synthesised field-wise equality. */
  datatype Note = Note(
    id: string,
    content: string,
    timestamp: int,
    isPinned: bool,
    userId: string,
    syncState: SyncState,
    needsSync: bool)

  /** The memberwise initialiser with the struct's default values; `id` stands
      for the `UUID().uuidString` that Swift draws when none is given. */
  function MakeNote(id: string, content: string, timestamp: int, userId: string,
                    isPinned: bool := false, syncState: SyncState := NotSynced): (n: Note)
    ensures n.id == id && n.content == content && n.timestamp == timestamp && n.userId == userId
    ensures n.isPinned == isPinned && n.syncState == syncState && n.needsSync
  {
    Note(id, content, timestamp, isPinned, userId, syncState, true)
  }

  /** A note built without pin or sync arguments starts unpinned, not synced
      and waiting to be pushed. */
  lemma FreshNoteDefaults(id: string, content: string, timestamp: int, userId: string)
    ensures var n := MakeNote(id, content, timestamp, userId);
            !n.isPinned && n.syncState == NotSynced && n.needsSync
  {
  }

  /** What `hash(into:)` feeds the hasher: the id and nothing else. */
  function HashedFields(n: Note): seq<string> {
    [n.id]
  }

  /** Hashing agrees with equality (equal notes hash alike), and more: notes
      that share an id hash alike whatever their other fields. */
  lemma HashDependsOnlyOnId(a: Note, b: Note)
    requires a == b || a.id == b.id
    ensures HashedFields(a) == HashedFields(b)
  {
  }

  // ---------------------------------------------------------------------------
  // The Core Data record and CDNote.toNote()
  // ---------------------------------------------------------------------------

  /** A cached record: every attribute but the two booleans is optional. */
  datatype CDNote = CDNote(
    content: Option<string>,
    id: Option<string>,
    isPinned: bool,
    needsSync: bool,
    timestamp: Option<int>,
    userId: Option<string>)

  /** `toNote()`. `freshId` and `now` stand for the UUID and `Date()` used when
      the id or timestamp is missing; `syncState` is the record's derived sync
      state. The record's `needsSync` is not passed on: the note gets the
      struct default. */
  function ToNote(r: CDNote, freshId: string, now: int, syncState: SyncState): (n: Note)
    ensures n.id == r.id.GetOr(freshId) && n.timestamp == r.timestamp.GetOr(now)
    ensures r.content.None? ==> n.content == ""
    ensures r.content.Some? ==> n.content == r.content.value
    ensures r.userId.None? ==> n.userId == ""
    ensures r.userId.Some? ==> n.userId == r.userId.value
    ensures n.isPinned == r.isPinned && n.syncState == syncState
    ensures n.needsSync
  {
    MakeNote(r.id.GetOr(freshId), r.content.GetOr(""), r.timestamp.GetOr(now),
             r.userId.GetOr(""), r.isPinned, syncState)
  }

  // ---------------------------------------------------------------------------
  // UserDefaults: deletedNoteIds() / setDeletedNoteIds(_:)
  // ---------------------------------------------------------------------------

  /** A stored property-list value, as far as the readers here tell them apart. */
  datatype DefaultsValue =
    | StringArray(items: seq<string>)
    | MixedArray
    | BoolValue(b: bool)
    | OtherValue

  type Defaults = map<string, DefaultsValue>

  const DeletedNoteIdsKey: string := "deletedNoteIds"

  /** `deletedNoteIds()`: the stored array as a set; a missing key or a value
      that is not an array of strings reads as the empty set. */
  function DeletedNoteIds(d: Defaults): (ids: set<string>)
    ensures DeletedNoteIdsKey !in d ==> ids == {}
    ensures DeletedNoteIdsKey in d && !d[DeletedNoteIdsKey].StringArray? ==> ids == {}
    ensures DeletedNoteIdsKey in d && d[DeletedNoteIdsKey].StringArray? ==>
              forall x :: x in ids <==> x in d[DeletedNoteIdsKey].items
  {
    if DeletedNoteIdsKey in d && d[DeletedNoteIdsKey].StringArray?
    then set x | x in d[DeletedNoteIdsKey].items
    else {}
  }

  /** `UserDefaults.bool(forKey:)`: false unless a boolean true is stored. */
  predicate BoolForKey(d: Defaults, key: string)
    ensures BoolForKey(d, key) ==> key in d
  {
    key in d && d[key].BoolValue? && d[key].b
  }

  /** `set(_:forKey:)` of a boolean, then `bool(forKey:)`: the key reads back
      the value written and every other key reads as before. */
  lemma BoolForKeyAfterSet(d: Defaults, key: string, b: bool, other: string)
    ensures BoolForKey(d[key := BoolValue(b)], key) == b
    ensures other != key ==> BoolForKey(d[key := BoolValue(b)], other) == BoolForKey(d, other)
  {
  }

  /** `Array(ids)`: the elements of the set, each once, in the set's own
      (unspecified) iteration order. */
  method ArrayOf(ids: set<string>) returns (a: seq<string>)
    ensures |a| == |ids|
    ensures forall x :: x in a <==> x in ids
    ensures forall i, j :: 0 <= i < j < |a| ==> a[i] != a[j]
  {
    a := [];
    var rest := ids;
    while rest != {}
      invariant rest <= ids
      invariant forall x :: x in a <==> x in ids - rest
      invariant forall i, j :: 0 <= i < j < |a| ==> a[i] != a[j]
      invariant |a| + |rest| == |ids|
      decreases |rest|
    {
      var x :| x in rest;
      assert x !in a;
      forall i, j | 0 <= i < j < |a + [x]| ensures (a + [x])[i] != (a + [x])[j] {
        if j == |a| {
          assert a[i] in a;
        }
      }
      a := a + [x];
      rest := rest - {x};
    }
  }

  /** `setDeletedNoteIds(_:)`: stores the set as an array of strings under its
      key. Reading it back yields the set that was written, and every other
      key keeps its value. */
  method SetDeletedNoteIds(d: Defaults, ids: set<string>) returns (d': Defaults)
    ensures DeletedNoteIds(d') == ids
    ensures d'.Keys == d.Keys + {DeletedNoteIdsKey}
    ensures OtherKeysKept(d, d')
  {
    var a := ArrayOf(ids);
    d' := d[DeletedNoteIdsKey := StringArray(a)];
  }

  /** Every key other than the tombstone key is still there, with its value. */
  predicate OtherKeysKept(before: Defaults, after: Defaults) {
    forall k :: k in before && k != DeletedNoteIdsKey ==> k in after && after[k] == before[k]
  }

  /** Writing another key leaves the tombstone set as it was. */
  lemma DeletedNoteIdsIgnoresOtherKeys(d: Defaults, k: string, v: DefaultsValue)
    requires k != DeletedNoteIdsKey
    ensures DeletedNoteIds(d[k := v]) == DeletedNoteIds(d)
  {
  }

  // ---------------------------------------------------------------------------
  // NoteRowView
  // ---------------------------------------------------------------------------

  datatype Colour = DraculaPink | DraculaYellow | DraculaGreen

  /** `syncStatusSymbol`: the SF Symbol name for each state; the cloud shows
      exactly for a synced note. */
  function SyncStatusSymbol(s: SyncState): (r: string)
    ensures r == "icloud" <==> s == Synced
  {
    match s
    case NotSynced => "iphone"
    case Syncing => "arrow.2.circlepath"
    case Synced => "icloud"
  }

  /** `syncStatusColor`: green exactly for a synced note, pink exactly for
      one not yet synced. */
  function SyncStatusColor(s: SyncState): (r: Colour)
    ensures r == DraculaGreen <==> s == Synced
    ensures r == DraculaPink <==> s == NotSynced
  {
    match s
    case NotSynced => DraculaPink
    case Syncing => DraculaYellow
    case Synced => DraculaGreen
  }

  /** Distinct states show distinct symbols and distinct colours, so the
      indicator always tells the three states apart. */
  lemma IndicatorsDistinct(a: SyncState, b: SyncState)
    requires a != b
    ensures SyncStatusSymbol(a) != SyncStatusSymbol(b)
    ensures SyncStatusColor(a) != SyncStatusColor(b)
  {
  }

  const PreviewLength: nat := 100

  /** The row's text: the first 100 characters of the content, trimmed. It is
      never longer than 100 characters and is a contiguous part of those
      characters with only whitespace cut away before and after it, and it
      neither starts nor ends with whitespace. */
  function RowPreview(content: string): (p: string)
    ensures |p| <= PreviewLength
    ensures var head := content[..Text.Min(PreviewLength, |content|)];
            exists i :: Text.OccursAt(head, p, i) && Text.IsBlank(head[..i]) && Text.IsBlank(head[i + |p|..])
    ensures p == [] || (!Text.IsWhitespace(p[0]) && !Text.IsWhitespace(p[|p| - 1]))
  {
    var head := content[..Text.Min(PreviewLength, |content|)];
    Text.TrimSpec(head);
    Text.TrimEdges(head);
    assert Text.OccursAt(head, Text.Trim(head), Text.TrimOffset(head));
    Text.Trim(head)
  }
}
