/**
 * The note store and its offline-first bookkeeping from ContentView.swift.
 *
 * The view's state becomes the fields of `NoteStore`: the in-memory `notes`,
 * the search text, the tombstone set `deletedNoteIds`, and the three stores the
 * view talks to: UserDefaults (`defaults`), the Core Data context (`cache`, one
 * record per note id and owner) and Firestore (`remote`, the documents
 * users/{userId}/notes/{noteId}). The signed-in user and the connectivity flag
 * are inputs. Every Firestore call the view makes is recorded in `inFlight`
 * when it is issued; its completion handler is a separate method that takes
 * the request and whether it succeeded.
 */
module ContentView {
  import opened Wrappers
  import opened Components
  import opened NoteList
  import Text

  /** Core Data records are looked up by note id and owner. */
  datatype CacheKey = CacheKey(id: string, userId: string)

  /** The remaining attributes of a record; the app writes all of them. */
  datatype CacheEntry = CacheEntry(content: string, timestamp: int, isPinned: bool, needsSync: bool)

  type Cache = map<CacheKey, CacheEntry>

  /** The record as Core Data hands it back, optional attributes and all. */
  function RecordOf(k: CacheKey, e: CacheEntry): CDNote {
    CDNote(Some(e.content), Some(k.id), e.isPinned, e.needsSync, Some(e.timestamp), Some(k.userId))
  }

  /** `cdNote.toNote()` for a record the app wrote. */
  function CachedNote(k: CacheKey, e: CacheEntry, syncState: SyncState): Note {
    ToNote(RecordOf(k, e), "", 0, syncState)
  }

  /** The attributes written for a note. */
  function EntryOf(n: Note, needsSync: bool): CacheEntry {
    CacheEntry(n.content, n.timestamp, n.isPinned, needsSync)
  }

  /** The fields `setData` writes to a note's document. */
  datatype RemoteDoc = RemoteDoc(content: string, timestamp: int, isPinned: bool)

  function DocOf(n: Note): RemoteDoc {
    RemoteDoc(n.content, n.timestamp, n.isPinned)
  }

  type Remote = map<string, map<string, RemoteDoc>>

  function NotesOf(remote: Remote, userId: string): map<string, RemoteDoc> {
    if userId in remote then remote[userId] else map[]
  }

  function PinnedDocs(docs: map<string, RemoteDoc>): map<string, RemoteDoc> {
    map id | id in docs && docs[id].isPinned :: docs[id]
  }

  /** A Firestore call whose completion handler has not run yet. */
  datatype Request =
    | Push(userId: string, noteId: string, doc: RemoteDoc)  // setData on users/{userId}/notes/{noteId}
    | Delete(userId: string, noteId: string)                // delete of users/{userId}/notes/{noteId}
    | DeleteUnpinned(userId: string)                        // query isPinned == false, then delete each hit
    | Fetch(userId: string)                                 // getDocuments on users/{userId}/notes

  function PushOf(userId: string, n: Note): Request {
    Push(userId, n.id, DocOf(n))
  }

  /** A document of a fetch snapshot; a field is None when it is missing or
      not of the expected type. */
  datatype FetchedDoc = FetchedDoc(documentID: string, content: Option<string>,
                                   timestamp: Option<int>, isPinned: Option<bool>)

  predicate Complete(d: FetchedDoc) {
    d.content.Some? && d.timestamp.Some? && d.isPinned.Some?
  }

  /** The note a complete document becomes: the document's id and fields,
      owned by the user, fresh (`notSynced`, `needsSync`). */
  function NoteOfDoc(d: FetchedDoc, userId: string): Note
    requires Complete(d)
  {
    MakeNote(d.documentID, d.content.value, d.timestamp.value, userId, d.isPinned.value)
  }

  /** The complete documents of a snapshot, in snapshot order: exactly the
      documents with all three fields, so all of them when none is missing a
      field. */
  function CompleteDocs(docs: seq<FetchedDoc>): (r: seq<FetchedDoc>)
    ensures |r| <= |docs|
    ensures forall j :: 0 <= j < |r| ==> Complete(r[j])
    ensures forall d :: d in r <==> d in docs && Complete(d)
    ensures (forall j :: 0 <= j < |docs| ==> Complete(docs[j])) ==> r == docs
  {
    if docs == [] then []
    else (if Complete(docs[0]) then [docs[0]] else []) + CompleteDocs(docs[1..])
  }

  /** Each complete document is kept as many times as the snapshot holds it;
      incomplete ones not at all. */
  lemma {:induction false} CompleteDocsCount(docs: seq<FetchedDoc>, d: FetchedDoc)
    ensures multiset(CompleteDocs(docs))[d] == if Complete(d) then multiset(docs)[d] else 0
  {
    if docs != [] {
      var rest := CompleteDocs(docs[1..]);
      CompleteDocsCount(docs[1..], d);
      assert docs == [docs[0]] + docs[1..];
      if Complete(docs[0]) {
        assert CompleteDocs(docs) == [docs[0]] + rest;
      } else {
        assert CompleteDocs(docs) == rest;
      }
    }
  }

  /** Taking the complete documents of two parts of a snapshot takes them of
      each part in place. */
  lemma {:induction false} CompleteDocsAppend(x: seq<FetchedDoc>, y: seq<FetchedDoc>)
    ensures CompleteDocs(x + y) == CompleteDocs(x) + CompleteDocs(y)
    decreases |x|
  {
    if x == [] {
      assert x + y == y;
    } else {
      assert (x + y)[0] == x[0];
      assert (x + y)[1..] == x[1..] + y;
      CompleteDocsAppend(x[1..], y);
    }
  }

  /** Snapshot order: the complete documents before any cut come before
      those after it, and a single document is kept exactly when it is
      complete. Together these fix `CompleteDocs` on every snapshot. */
  lemma {:induction false} CompleteDocsSpec(docs: seq<FetchedDoc>)
    ensures forall i :: 0 <= i <= |docs| ==> CompleteDocs(docs) == CompleteDocs(docs[..i]) + CompleteDocs(docs[i..])
    ensures forall i :: 0 <= i < |docs| ==> CompleteDocs(docs[i..i + 1]) == if Complete(docs[i]) then [docs[i]] else []
  {
    forall i | 0 <= i <= |docs| ensures CompleteDocs(docs) == CompleteDocs(docs[..i]) + CompleteDocs(docs[i..]) {
      CompleteDocsAppend(docs[..i], docs[i..]);
      assert docs[..i] + docs[i..] == docs;
    }
    forall i | 0 <= i < |docs| ensures CompleteDocs(docs[i..i + 1]) == if Complete(docs[i]) then [docs[i]] else [] {
      assert docs[i..i + 1] == [docs[i]];
      assert [docs[i]][1..] == [];
    }
  }

  /** The `compactMap` over a snapshot is the filter of the complete documents
      followed by the map to notes: the j-th note is made from the j-th
      complete document, so incomplete documents are skipped and the order is
      the snapshot's. With every document complete there is a note for each. */
  function ParseDocuments(docs: seq<FetchedDoc>, userId: string): (notes: seq<Note>)
    ensures |notes| == |CompleteDocs(docs)| <= |docs|
    ensures forall j :: 0 <= j < |notes| ==> notes[j] == NoteOfDoc(CompleteDocs(docs)[j], userId)
    ensures (forall j :: 0 <= j < |docs| ==> Complete(docs[j])) ==> |notes| == |docs|
  {
    if docs == [] then []
    else
      var d := docs[0];
      var rest := ParseDocuments(docs[1..], userId);
      if Complete(d) then
        assert CompleteDocs(docs) == [d] + CompleteDocs(docs[1..]);
        [NoteOfDoc(d, userId)] + rest
      else
        assert CompleteDocs(docs) == CompleteDocs(docs[1..]);
        rest
  }

  const UnpinnedNotesNeedDeletionKey: string := "unpinnedNotesNeedDeletion"

  // ---------------------------------------------------------------------------
  // What syncPendingChanges sends
  // ---------------------------------------------------------------------------

  /** The user's records marked `needsSync`. */
  function SyncKeys(cache: Cache, userId: string): set<CacheKey> {
    set k | k in cache && k.userId == userId && cache[k].needsSync
  }

  /** The user's tombstones: the entries with the prefix "userId:". */
  function TombstonesOf(tombstones: set<string>, userId: string): set<string> {
    set t | t in tombstones && IsTombstoneOf(t, userId)
  }

  function PendingPushes(cache: Cache, userId: string): set<Request> {
    PushesFor(cache, userId, SyncKeys(cache, userId))
  }

  function PendingDeletes(tombstones: set<string>, userId: string): set<Request> {
    DeletesFor(userId, TombstonesOf(tombstones, userId))
  }

  /** All requests one run of `syncPendingChanges` issues for a user. */
  function SyncRequests(cache: Cache, tombstones: set<string>, defaults: Defaults, userId: string): multiset<Request> {
    multiset(PendingPushes(cache, userId))
    + multiset(PendingDeletes(tombstones, userId))
    + (if BoolForKey(defaults, UnpinnedNotesNeedDeletionKey) then multiset{DeleteUnpinned(userId)} else multiset{})
  }

  /** A push is pending for a note exactly when the user's record of it is
      marked `needsSync`, and it carries that record's content, timestamp and
      pin state. */
  lemma PendingPushesExact(cache: Cache, userId: string, noteId: string, doc: RemoteDoc)
    ensures Push(userId, noteId, doc) in PendingPushes(cache, userId) <==>
              var k := CacheKey(noteId, userId);
              k in cache && cache[k].needsSync
              && doc == RemoteDoc(cache[k].content, cache[k].timestamp, cache[k].isPinned)
  {
    var k := CacheKey(noteId, userId);
    if Push(userId, noteId, doc) in PendingPushes(cache, userId) {
      var k' :| k' in SyncKeys(cache, userId) && k' in cache
                && Push(userId, noteId, doc) == PushOfRecord(userId, k', cache[k']);
      assert k' == k;
    } else if k in cache && cache[k].needsSync {
      assert k in SyncKeys(cache, userId);
      assert PushOfRecord(userId, k, cache[k]) in PendingPushes(cache, userId);
    }
  }

  /** A deletion is pending for a note exactly when the user's tombstone for it
      is in the set. */
  lemma PendingDeletesExact(tombstones: set<string>, userId: string, noteId: string)
    ensures Delete(userId, noteId) in PendingDeletes(tombstones, userId) <==>
              TombstoneKey(userId, noteId) in tombstones
  {
    if Delete(userId, noteId) in PendingDeletes(tombstones, userId) {
      var t :| t in TombstonesOf(tombstones, userId) && Delete(userId, noteId) == Delete(userId, TombstoneNoteId(t, userId));
      TombstoneDecodeEncodes(t, userId);
    }
    if TombstoneKey(userId, noteId) in tombstones {
      var t := TombstoneKey(userId, noteId);
      TombstoneRoundTrip(userId, noteId);
      assert t in TombstonesOf(tombstones, userId);
      assert Delete(userId, TombstoneNoteId(t, userId)) in PendingDeletes(tombstones, userId);
    }
  }

  /** Moving one element from the to-do set to the done set keeps them
      disjoint with the same union. */
  lemma MoveOne<T>(todo: set<T>, done: set<T>, x: T)
    requires x in todo && todo !! done
    ensures (todo - {x}) !! (done + {x})
    ensures (todo - {x}) + (done + {x}) == todo + done
    ensures |done + {x}| == |done| + 1
  {
  }

  lemma MultisetAppend<T>(base: multiset<T>, issued: multiset<T>, x: T)
    ensures (base + issued) + multiset{x} == base + (issued + multiset{x})
  {
  }

  lemma MultisetSum<T>(base: multiset<T>, a: multiset<T>, b: multiset<T>, c: multiset<T>)
    ensures ((base + a) + b) + c == base + (a + b + c)
  {
  }

  lemma MultisetAddFresh<T>(a: set<T>, x: T)
    requires x !in a
    ensures multiset(a + {x}) == multiset(a) + multiset{x}
  {
    assert forall y :: multiset(a + {x})[y] == (multiset(a) + multiset{x})[y];
  }

  // ---------------------------------------------------------------------------
  // The requests issued so far by the loops of syncPendingChanges
  // ---------------------------------------------------------------------------

  /** The push `syncPendingChanges` issues for a cached record. */
  function PushOfRecord(userId: string, k: CacheKey, e: CacheEntry): Request {
    PushOf(userId, CachedNote(k, e, NotSynced))
  }

  function PushesFor(cache: Cache, userId: string, keys: set<CacheKey>): set<Request> {
    set k | k in keys && k in cache :: PushOfRecord(userId, k, cache[k])
  }

  /** Pushing one more of the user's records adds exactly one new request:
      records of one user differ in their note id, and so do their pushes. */
  lemma PushesForStep(cache: Cache, userId: string, keys: set<CacheKey>, k: CacheKey)
    requires k in cache && k.userId == userId && k !in keys
    requires forall k' :: k' in keys ==> k'.userId == userId
    ensures multiset(PushesFor(cache, userId, keys + {k})) ==
              multiset(PushesFor(cache, userId, keys)) + multiset{PushOfRecord(userId, k, cache[k])}
  {
    var x := PushOfRecord(userId, k, cache[k]);
    assert PushesFor(cache, userId, keys + {k}) == PushesFor(cache, userId, keys) + {x};
    MultisetAddFresh(PushesFor(cache, userId, keys), x);
  }

  function DeletesFor(userId: string, entries: set<string>): set<Request> {
    set t | t in entries :: Delete(userId, TombstoneNoteId(t, userId))
  }

  /** Flushing one more of the user's tombstones adds exactly one new request:
      distinct tombstones of one user decode to distinct note ids. */
  lemma DeletesForStep(userId: string, entries: set<string>, t: string)
    requires IsTombstoneOf(t, userId) && t !in entries
    requires forall t' :: t' in entries ==> IsTombstoneOf(t', userId)
    ensures multiset(DeletesFor(userId, entries + {t})) ==
              multiset(DeletesFor(userId, entries)) + multiset{Delete(userId, TombstoneNoteId(t, userId))}
  {
    var x := Delete(userId, TombstoneNoteId(t, userId));
    assert DeletesFor(userId, entries + {t}) == DeletesFor(userId, entries) + {x};
    forall t' | t' in entries ensures TombstoneNoteId(t', userId) != TombstoneNoteId(t, userId) {
      TombstoneDecodeEncodes(t', userId);
      TombstoneDecodeEncodes(t, userId);
    }
    MultisetAddFresh(DeletesFor(userId, entries), x);
  }

  // ---------------------------------------------------------------------------
  // The notes fetchNotesFromCoreData has loaded so far
  // ---------------------------------------------------------------------------

  function UserKeys(cache: Cache, userId: string): set<CacheKey> {
    set k | k in cache && k.userId == userId
  }

  function LoadedFor(cache: Cache, stateOf: CacheKey -> SyncState, keys: set<CacheKey>): set<Note> {
    set k | k in keys && k in cache :: CachedNote(k, cache[k], stateOf(k))
  }

  lemma LoadedForStep(cache: Cache, stateOf: CacheKey -> SyncState, keys: set<CacheKey>, k: CacheKey)
    requires k in cache && k !in keys
    requires forall k' :: k' in keys ==> k'.userId == k.userId
    ensures multiset(LoadedFor(cache, stateOf, keys + {k})) ==
              multiset(LoadedFor(cache, stateOf, keys)) + multiset{CachedNote(k, cache[k], stateOf(k))}
  {
    var x := CachedNote(k, cache[k], stateOf(k));
    assert LoadedFor(cache, stateOf, keys + {k}) == LoadedFor(cache, stateOf, keys) + {x};
    MultisetAddFresh(LoadedFor(cache, stateOf, keys), x);
  }

  /** The fetch of `fetchNotesFromCoreData`: each of the user's records once,
      converted with `toNote()`, newest first. */
  method LoadUserRecords(records: Cache, u: string, stateOf: CacheKey -> SyncState) returns (loaded: seq<Note>)
    ensures multiset(loaded) == multiset(LoadedFor(records, stateOf, UserKeys(records, u)))
    ensures |loaded| == |UserKeys(records, u)|
    ensures NewestFirst(loaded)
  {
    var todo := UserKeys(records, u);
    ghost var done: set<CacheKey> := {};
    loaded := [];
    while todo != {}
      invariant todo !! done && todo + done == UserKeys(records, u)
      invariant multiset(loaded) == multiset(LoadedFor(records, stateOf, done))
      invariant |loaded| == |done|
      invariant NewestFirst(loaded)
      invariant forall k :: k in todo ==> AllAtLeast(loaded, records[k].timestamp)
      decreases |todo|
    {
      NewestExists(records, todo);
      var k :| k in todo && forall k' :: k' in todo ==> records[k'].timestamp <= records[k].timestamp;
      var note := CachedNote(k, records[k], stateOf(k));
      assert note.timestamp == records[k].timestamp;
      assert multiset(loaded + [note]) == multiset(LoadedFor(records, stateOf, done + {k})) by {
        LoadedForStep(records, stateOf, done, k);
        assert multiset(loaded + [note]) == multiset(loaded) + multiset{note};
      }
      assert NewestFirst(loaded + [note]) by {
        AppendNewest(loaded, note);
      }
      assert forall k' :: k' in todo - {k} ==> AllAtLeast(loaded + [note], records[k'].timestamp) by {
        forall k' | k' in todo - {k} ensures AllAtLeast(loaded + [note], records[k'].timestamp) {
          AppendAtLeast(loaded, note, records[k'].timestamp);
        }
      }
      MoveOne(todo, done, k);
      loaded := loaded + [note];
      todo := todo - {k};
      done := done + {k};
    }
  }

  // ---------------------------------------------------------------------------
  // syncNotesToCoreData
  // ---------------------------------------------------------------------------

  /** The records after upserting the fetched notes one by one: no record is
      lost. */
  function ApplyFetched(cache: Cache, userId: string, fetched: seq<Note>): (r: Cache)
    ensures cache.Keys <= r.Keys
    decreases |fetched|
  {
    if fetched == [] then cache
    else ApplyFetched(cache[CacheKey(fetched[0].id, userId) := EntryOf(fetched[0], false)], userId, fetched[1..])
  }

  /** A record that no fetched note addresses (another owner's, or one whose id
      was not fetched) keeps its value. */
  lemma {:induction false} ApplyFetchedUntouched(cache: Cache, userId: string, fetched: seq<Note>, k: CacheKey)
    requires k in cache
    requires k.userId != userId || forall n :: n in fetched ==> n.id != k.id
    ensures k in ApplyFetched(cache, userId, fetched)
    ensures ApplyFetched(cache, userId, fetched)[k] == cache[k]
    decreases |fetched|
  {
    if fetched != [] {
      assert fetched[0] in fetched;
      var c' := cache[CacheKey(fetched[0].id, userId) := EntryOf(fetched[0], false)];
      forall n | n in fetched[1..] ensures n in fetched {
      }
      ApplyFetchedUntouched(c', userId, fetched[1..], k);
    }
  }

  /** The upsert adds the user's record of each fetched note and no other. */
  lemma {:induction false} ApplyFetchedKeys(cache: Cache, userId: string, fetched: seq<Note>)
    ensures ApplyFetched(cache, userId, fetched).Keys ==
              cache.Keys + (set n | n in fetched :: CacheKey(n.id, userId))
    decreases |fetched|
  {
    if fetched != [] {
      var k0 := CacheKey(fetched[0].id, userId);
      ApplyFetchedKeys(cache[k0 := EntryOf(fetched[0], false)], userId, fetched[1..]);
      assert fetched == [fetched[0]] + fetched[1..];
      assert (set n | n in fetched :: CacheKey(n.id, userId))
             == {k0} + (set n | n in fetched[1..] :: CacheKey(n.id, userId));
    }
  }

  /** The user's record of a fetched note holds the last fetched version of it. */
  lemma {:induction false} ApplyFetchedLast(cache: Cache, userId: string, fetched: seq<Note>, j: nat)
    requires j < |fetched|
    requires forall j' :: j < j' < |fetched| ==> fetched[j'].id != fetched[j].id
    ensures CacheKey(fetched[j].id, userId) in ApplyFetched(cache, userId, fetched)
    ensures ApplyFetched(cache, userId, fetched)[CacheKey(fetched[j].id, userId)] == EntryOf(fetched[j], false)
    decreases |fetched|
  {
    var k0 := CacheKey(fetched[0].id, userId);
    var c' := cache[k0 := EntryOf(fetched[0], false)];
    var tail := fetched[1..];
    if j > 0 {
      assert tail[j - 1] == fetched[j];
      forall j' | j - 1 < j' < |tail| ensures tail[j'].id != tail[j - 1].id {
        assert tail[j'] == fetched[j' + 1];
      }
      ApplyFetchedLast(c', userId, tail, j - 1);
    } else {
      forall n | n in tail ensures n.id != k0.id {
        var i :| 0 <= i < |tail| && tail[i] == n;
        assert fetched[i + 1] == n;
      }
      ApplyFetchedUntouched(c', userId, tail, k0);
    }
  }

  /** After the upsert the user's record of every fetched note is not marked
      `needsSync`. */
  lemma {:induction false} ApplyFetchedClean(cache: Cache, userId: string, fetched: seq<Note>, n: Note)
    requires n in fetched
    ensures CacheKey(n.id, userId) in ApplyFetched(cache, userId, fetched)
    ensures !ApplyFetched(cache, userId, fetched)[CacheKey(n.id, userId)].needsSync
    decreases |fetched|
  {
    var k0 := CacheKey(fetched[0].id, userId);
    var c' := cache[k0 := EntryOf(fetched[0], false)];
    var tail := fetched[1..];
    if n in tail {
      ApplyFetchedClean(c', userId, tail, n);
    } else if m :| m in tail && m.id == n.id {
      ApplyFetchedClean(c', userId, tail, m);
    } else {
      assert n == fetched[0];
      ApplyFetchedUntouched(c', userId, tail, k0);
    }
  }

  // ---------------------------------------------------------------------------
  // The view's state
  // ---------------------------------------------------------------------------

  class NoteStore {
    var user: Option<string>          // authManager.user?.uid
    var isConnected: bool             // connectivityManager.isConnected
    var notes: seq<Note>
    var searchText: string
    var deletedNoteIds: set<string>
    var defaults: Defaults            // UserDefaults.standard
    var cache: Cache                  // the Core Data view context
    var remote: Remote                // Firestore
    var inFlight: multiset<Request>

    /** The tombstone set in memory always equals the one persisted in
        UserDefaults: it is loaded from there and every change is written back. */
    ghost predicate Valid()
      reads this
    {
      DeletedNoteIds(defaults) == deletedNoteIds
    }

    constructor (user: Option<string>, isConnected: bool, defaults: Defaults, cache: Cache, remote: Remote)
      ensures Valid()
      ensures this.user == user && this.isConnected == isConnected
      ensures this.defaults == defaults && this.cache == cache && this.remote == remote
      ensures notes == [] && searchText == [] && inFlight == multiset{}
    {
      this.user := user;
      this.isConnected := isConnected;
      this.defaults := defaults;
      this.cache := cache;
      this.remote := remote;
      notes := [];
      searchText := [];
      deletedNoteIds := DeletedNoteIds(defaults);
      inFlight := multiset{};
    }

    /** `filteredNotes`: pinned notes first, each pin group newest first, and,
        for a non-empty search, exactly the notes whose lowercased content
        contains the lowercased search text. */
    function FilteredNotes(): (r: seq<Note>)
      reads this
      ensures Ordered(r)
      ensures forall n :: multiset(r)[n] ==
                if searchText == [] || MatchesSearch(n, searchText) then multiset(notes)[n] else 0
    {
      FilteredNotesSpec(notes, searchText);
      Filtered(notes, searchText)
    }

    // -------------------------------------------------------------------------
    // Issuing Firestore calls
    // -------------------------------------------------------------------------

    /** `syncNoteToFirebase`: with a signed-in user, issues the document write. */
    method SyncNoteToFirebase(note: Note)
      modifies this`inFlight
      ensures inFlight == old(inFlight) + if user.Some? then multiset{PushOf(user.value, note)} else multiset{}
    {
      if user.Some? {
        inFlight := inFlight + multiset{PushOf(user.value, note)};
      }
    }

    /** `deleteNoteFromFirebase`: with a signed-in user, issues the document delete. */
    method DeleteNoteFromFirebase(noteId: string)
      modifies this`inFlight
      ensures inFlight == old(inFlight) + if user.Some? then multiset{Delete(user.value, noteId)} else multiset{}
    {
      if user.Some? {
        inFlight := inFlight + multiset{Delete(user.value, noteId)};
      }
    }

    /** `deleteUnpinnedNotesFromFirebase()`: with a signed-in user, issues the
        query for the user's unpinned documents. */
    method DeleteUnpinnedNotesFromFirebase()
      modifies this`inFlight
      ensures inFlight == old(inFlight) + if user.Some? then multiset{DeleteUnpinned(user.value)} else multiset{}
    {
      if user.Some? {
        inFlight := inFlight + multiset{DeleteUnpinned(user.value)};
      }
    }

    // -------------------------------------------------------------------------
    // Completion handlers
    // -------------------------------------------------------------------------

    /** Completion of `syncNoteToFirebase`. On success the document holds the
        pushed fields and the user's record of the note, if there is one, is
        no longer marked `needsSync`; on failure nothing changes. */
    method OnPushCompleted(request: Request, succeeded: bool)
      requires Valid() && request in inFlight && request.Push?
      modifies this`remote, this`cache, this`inFlight
      ensures Valid()
      ensures inFlight == old(inFlight) - multiset{request}
      ensures !succeeded ==> remote == old(remote) && cache == old(cache)
      ensures succeeded ==>
                var k := CacheKey(request.noteId, request.userId);
                && remote == old(remote)[request.userId :=
                               NotesOf(old(remote), request.userId)[request.noteId := request.doc]]
                && cache == if k in old(cache) then old(cache)[k := old(cache)[k].(needsSync := false)] else old(cache)
    {
      inFlight := inFlight - multiset{request};
      if succeeded {
        var u := request.userId;
        remote := remote[u := NotesOf(remote, u)[request.noteId := request.doc]];
        var k := CacheKey(request.noteId, u);
        if k in cache {
          cache := cache[k := cache[k].(needsSync := false)];
        }
      }
    }

    /** Completion of `deleteNoteFromFirebase`. On success the document is gone
        and the note's tombstone is removed (in memory and in UserDefaults); on
        failure the tombstone set is unchanged. */
    method OnDeleteCompleted(request: Request, succeeded: bool)
      requires Valid() && request in inFlight && request.Delete?
      modifies this`remote, this`deletedNoteIds, this`defaults, this`inFlight
      ensures Valid()
      ensures inFlight == old(inFlight) - multiset{request}
      ensures !succeeded ==> remote == old(remote) && deletedNoteIds == old(deletedNoteIds) && defaults == old(defaults)
      ensures succeeded ==>
                && remote == old(remote)[request.userId := NotesOf(old(remote), request.userId) - {request.noteId}]
                && deletedNoteIds == old(deletedNoteIds) - {TombstoneKey(request.userId, request.noteId)}
                && OtherKeysKept(old(defaults), defaults)
    {
      inFlight := inFlight - multiset{request};
      if succeeded {
        var u := request.userId;
        remote := remote[u := NotesOf(remote, u) - {request.noteId}];
        deletedNoteIds := deletedNoteIds - {TombstoneKey(u, request.noteId)};
        defaults := SetDeletedNoteIds(defaults, deletedNoteIds);
      }
    }

    /** Completion of `deleteUnpinnedNotesFromFirebase` (the same handler is
        used by the settings screen). On success the user's unpinned documents
        are deleted; either way the pending bulk-deletion flag is cleared. */
    method OnUnpinnedQueryCompleted(request: Request, succeeded: bool)
      requires Valid() && request in inFlight && request.DeleteUnpinned?
      modifies this`remote, this`defaults, this`inFlight
      ensures Valid()
      ensures inFlight == old(inFlight) - multiset{request}
      ensures defaults == old(defaults)[UnpinnedNotesNeedDeletionKey := BoolValue(false)]
      ensures !BoolForKey(defaults, UnpinnedNotesNeedDeletionKey)
      ensures !succeeded ==> remote == old(remote)
      ensures succeeded ==> remote == old(remote)[request.userId := PinnedDocs(NotesOf(old(remote), request.userId))]
    {
      inFlight := inFlight - multiset{request};
      if succeeded {
        remote := remote[request.userId := PinnedDocs(NotesOf(remote, request.userId))];
      }
      DeletedNoteIdsIgnoresOtherKeys(defaults, UnpinnedNotesNeedDeletionKey, BoolValue(false));
      defaults := defaults[UnpinnedNotesNeedDeletionKey := BoolValue(false)];
    }

    /** Completion of `fetchNotesFromFirebase`. On success the snapshot
        replaces the in-memory list (no merge with local edits) and is upserted
        into the cache. */
    method OnFetchCompleted(request: Request, documents: seq<FetchedDoc>, succeeded: bool)
      requires Valid() && request in inFlight && request.Fetch?
      modifies this`notes, this`cache, this`inFlight
      ensures Valid()
      ensures inFlight == old(inFlight) - multiset{request}
      ensures !succeeded ==> notes == old(notes) && cache == old(cache)
      ensures succeeded ==>
                && notes == ParseDocuments(documents, request.userId)
                && cache == if user.Some? then ApplyFetched(old(cache), user.value, notes) else old(cache)
    {
      inFlight := inFlight - multiset{request};
      if succeeded {
        notes := ParseDocuments(documents, request.userId);
        SyncNotesToCoreData(notes);
      }
    }

    // -------------------------------------------------------------------------
    // Mutations
    // -------------------------------------------------------------------------

    /** `addNote`: without a user nothing happens. Otherwise the note, trimmed
        and owned by the user, gets a cache record marked `needsSync`; it joins
        the list only if the cache save succeeded, and is pushed when online. */
    method AddNote(note: Note, saveOk: bool)
      requires Valid()
      modifies this`notes, this`cache, this`inFlight
      ensures Valid()
      ensures user.None? ==> notes == old(notes) && cache == old(cache) && inFlight == old(inFlight)
      ensures user.Some? ==>
                var stored := note.(content := Text.Trim(note.content), userId := user.value);
                && cache == old(cache)[CacheKey(note.id, user.value) := EntryOf(stored, true)]
                && notes == (if saveOk then old(notes) + [stored] else old(notes))
                && inFlight == old(inFlight) + if isConnected then multiset{PushOf(user.value, stored)} else multiset{}
    {
      if user.None? {
        return;
      }
      var u := user.value;
      var trimmed := note.(content := Text.Trim(note.content), userId := u);
      cache := cache[CacheKey(trimmed.id, u) := EntryOf(trimmed, true)];
      if saveOk {
        notes := notes + [trimmed];
      }
      if isConnected {
        SyncNoteToFirebase(trimmed);
      }
    }

    /** `updateNote`: replaces the first note with the same id (the list is
        unchanged when there is none), rewrites one cached record with that id,
        of any owner, and marks it `needsSync`, and pushes when online. */
    method UpdateNote(updated: Note)
      requires Valid()
      modifies this`notes, this`cache, this`inFlight
      ensures Valid()
      ensures notes == match IndexOfId(old(notes), updated.id)
                       case Some(i) => old(notes)[i := updated]
                       case None => old(notes)
      ensures RecordRewritten(old(cache), cache, updated)
      ensures inFlight == old(inFlight) + if isConnected && user.Some? then multiset{PushOf(user.value, updated)} else multiset{}
    {
      var index := IndexOfId(notes, updated.id);
      if index.Some? {
        notes := notes[index.value := updated];
      }
      if k :| k in cache && k.id == updated.id {
        cache := cache[k := EntryOf(updated, true)];
      }
      if isConnected {
        SyncNoteToFirebase(updated);
      }
    }

    /** `togglePin`: flips the pin of the first note with the note's id and
        hands that note to `updateNote`; nothing happens when no note has it. */
    method TogglePin(note: Note)
      requires Valid()
      modifies this`notes, this`cache, this`inFlight
      ensures Valid()
      ensures IndexOfId(old(notes), note.id).None? ==>
                notes == old(notes) && cache == old(cache) && inFlight == old(inFlight)
      ensures IndexOfId(old(notes), note.id).Some? ==>
                var i := IndexOfId(old(notes), note.id).value;
                var toggled := old(notes)[i].(isPinned := !old(notes)[i].isPinned);
                && notes == old(notes)[i := toggled]
                && RecordRewritten(old(cache), cache, toggled)
                && inFlight == old(inFlight) + if isConnected && user.Some? then multiset{PushOf(user.value, toggled)} else multiset{}
    {
      var index := IndexOfId(notes, note.id);
      if index.Some? {
        var i := index.value;
        notes := notes[i := notes[i].(isPinned := !notes[i].isPinned)];
        IndexOfIdAt(notes, note.id, i);
        UpdateNote(notes[i]);
      }
    }

    /** `deleteNote`: without a user nothing happens. Otherwise the note leaves
        the list and the cache; online, the remote delete is issued and no
        tombstone is written; offline, the tombstone `"userId:noteId"` is added
        and persisted. */
    method DeleteNote(note: Note)
      requires Valid()
      modifies this`notes, this`cache, this`inFlight, this`deletedNoteIds, this`defaults
      ensures Valid()
      ensures user.None? ==>
                notes == old(notes) && cache == old(cache) && inFlight == old(inFlight)
                && deletedNoteIds == old(deletedNoteIds) && defaults == old(defaults)
      ensures user.Some? ==>
                && notes == RemoveFirstWithId(old(notes), note.id)
                && cache == old(cache) - {CacheKey(note.id, user.value)}
      ensures user.Some? && isConnected ==>
                && deletedNoteIds == old(deletedNoteIds) && defaults == old(defaults)
                && inFlight == old(inFlight) + multiset{Delete(user.value, note.id)}
      ensures user.Some? && !isConnected ==>
                && deletedNoteIds == old(deletedNoteIds) + {TombstoneKey(user.value, note.id)}
                && inFlight == old(inFlight)
                && OtherKeysKept(old(defaults), defaults)
    {
      if user.None? {
        return;
      }
      var u := user.value;
      ForgetNote(u, note.id);
      if isConnected {
        DeleteNoteFromFirebase(note.id);
      } else {
        AddTombstone(u, note.id);
      }
    }

    /** The part of `deleteNote` common to both branches: the note leaves the
        list and its record leaves the cache. */
    method ForgetNote(u: string, noteId: string)
      requires Valid()
      modifies this`notes, this`cache
      ensures Valid()
      ensures notes == RemoveFirstWithId(old(notes), noteId)
      ensures cache == old(cache) - {CacheKey(noteId, u)}
    {
      notes := RemoveFirstWithId(notes, noteId);
      cache := cache - {CacheKey(noteId, u)};
    }

    /** The offline branch of `deleteNote`: the tombstone `"userId:noteId"`
        joins the set, which is written back to UserDefaults. */
    method AddTombstone(u: string, noteId: string)
      requires Valid()
      modifies this`deletedNoteIds, this`defaults
      ensures Valid()
      ensures deletedNoteIds == old(deletedNoteIds) + {TombstoneKey(u, noteId)}
      ensures OtherKeysKept(old(defaults), defaults)
    {
      deletedNoteIds := deletedNoteIds + {TombstoneKey(u, noteId)};
      defaults := SetDeletedNoteIds(defaults, deletedNoteIds);
    }

    /** `checkForUnpinnedNotesDeletion`: while a bulk deletion is pending, the
        list keeps only its pinned notes. */
    method CheckForUnpinnedNotesDeletion()
      modifies this`notes
      ensures notes == if BoolForKey(defaults, UnpinnedNotesNeedDeletionKey) then PinnedOnly(old(notes)) else old(notes)
    {
      if BoolForKey(defaults, UnpinnedNotesNeedDeletionKey) {
        notes := PinnedOnly(notes);
      }
    }

    // -------------------------------------------------------------------------
    // Reconciliation
    // -------------------------------------------------------------------------

    /** `syncPendingChanges`: a no-op offline or without a user. Otherwise it
        pushes every record of the user marked `needsSync`, issues a delete for
        every tombstone of the user, and runs the pending bulk deletion, each
        exactly once. */
    method SyncPendingChanges()
      requires Valid()
      modifies this`inFlight
      ensures Valid()
      ensures inFlight == old(inFlight) +
                if isConnected && user.Some? then SyncRequests(cache, deletedNoteIds, defaults, user.value) else multiset{}
    {
      if !isConnected || user.None? {
        return;
      }
      var u := user.value;
      PushRecords(u, SyncKeys(cache, u));
      ghost var afterPushes := inFlight;
      DeleteTombstones(u, TombstonesOf(deletedNoteIds, u));
      ghost var afterDeletes := inFlight;
      if BoolForKey(defaults, UnpinnedNotesNeedDeletionKey) {
        DeleteUnpinnedNotesFromFirebase();
      }
      MultisetSum(old(inFlight), multiset(PendingPushes(cache, u)), multiset(PendingDeletes(deletedNoteIds, u)),
                  inFlight - afterDeletes);
    }

    /** The first loop of `syncPendingChanges`: `syncNoteToFirebase` for each of
        the given records of the user, converted with `toNote()`. */
    method PushRecords(u: string, keys: set<CacheKey>)
      requires user == Some(u)
      requires keys <= cache.Keys && forall k :: k in keys ==> k.userId == u
      modifies this`inFlight
      ensures inFlight == old(inFlight) + multiset(PushesFor(cache, u, keys))
    {
      var records := cache;
      var toSync := keys;
      ghost var synced: set<CacheKey> := {};
      ghost var issued: multiset<Request> := multiset{};
      while toSync != {}
        invariant toSync !! synced && toSync + synced == keys
        invariant inFlight == old(inFlight) + issued
        invariant issued == multiset(PushesFor(records, u, synced))
        decreases |toSync|
      {
        var k :| k in toSync;
        var note := CachedNote(k, records[k], NotSynced);
        SyncNoteToFirebase(note);
        ghost var push := PushOfRecord(u, k, records[k]);
        assert inFlight == old(inFlight) + (issued + multiset{push}) by {
          MultisetAppend(old(inFlight), issued, push);
        }
        assert issued + multiset{push} == multiset(PushesFor(records, u, synced + {k})) by {
          PushesForStep(records, u, synced, k);
        }
        MoveOne(toSync, synced, k);
        issued := issued + multiset{push};
        toSync := toSync - {k};
        synced := synced + {k};
      }
    }

    /** The second loop of `syncPendingChanges`: `deleteNoteFromFirebase` for the
        note id each of the given tombstones of the user decodes to. */
    method DeleteTombstones(u: string, entries: set<string>)
      requires user == Some(u)
      requires forall t :: t in entries ==> IsTombstoneOf(t, u)
      modifies this`inFlight
      ensures inFlight == old(inFlight) + multiset(DeletesFor(u, entries))
    {
      var toDelete := entries;
      ghost var flushed: set<string> := {};
      ghost var issued: multiset<Request> := multiset{};
      while toDelete != {}
        invariant toDelete !! flushed && toDelete + flushed == entries
        invariant inFlight == old(inFlight) + issued
        invariant issued == multiset(DeletesFor(u, flushed))
        decreases |toDelete|
      {
        var t :| t in toDelete;
        var actualNoteId := TombstoneNoteId(t, u);
        DeleteNoteFromFirebase(actualNoteId);
        assert inFlight == old(inFlight) + (issued + multiset{Delete(u, actualNoteId)}) by {
          MultisetAppend(old(inFlight), issued, Delete(u, actualNoteId));
        }
        assert issued + multiset{Delete(u, actualNoteId)} == multiset(DeletesFor(u, flushed + {t})) by {
          DeletesForStep(u, flushed, t);
        }
        MoveOne(toDelete, flushed, t);
        issued := issued + multiset{Delete(u, actualNoteId)};
        toDelete := toDelete - {t};
        flushed := flushed + {t};
      }
    }

    /** `onChange(of: connectivityManager.isConnected)`: the handler runs only
        when the value changes, and syncs only on a change to connected. */
    method ConnectivityChanged(newValue: bool)
      requires Valid()
      modifies this`isConnected, this`inFlight
      ensures Valid()
      ensures isConnected == newValue
      ensures inFlight == old(inFlight) +
                if !old(isConnected) && newValue && user.Some?
                then SyncRequests(cache, deletedNoteIds, defaults, user.value) else multiset{}
    {
      var changed := newValue != isConnected;
      isConnected := newValue;
      if changed && newValue {
        SyncPendingChanges();
      }
    }

    // -------------------------------------------------------------------------
    // Loading
    // -------------------------------------------------------------------------

    /** `fetchNotes`: from Firestore when online, from the cache otherwise. */
    method FetchNotes(stateOf: CacheKey -> SyncState)
      requires Valid()
      modifies this`notes, this`inFlight
      ensures Valid()
      ensures isConnected ==>
                && notes == old(notes)
                && inFlight == old(inFlight) + if user.Some? then multiset{Fetch(user.value)} else multiset{}
      ensures !isConnected ==> inFlight == old(inFlight) && LoadedFromCache(stateOf)
      ensures !isConnected && user.None? ==> notes == old(notes)
    {
      if isConnected {
        if user.Some? {
          inFlight := inFlight + multiset{Fetch(user.value)};
        }
      } else {
        FetchNotesFromCoreData(stateOf);
      }
    }

    /** The list holds each of the user's cached records once, as a note, from
        newest to oldest. */
    ghost predicate LoadedFromCache(stateOf: CacheKey -> SyncState)
      reads this
    {
      user.Some? ==>
        && multiset(notes) == multiset(LoadedFor(cache, stateOf, UserKeys(cache, user.value)))
        && |notes| == |UserKeys(cache, user.value)|
        && NewestFirst(notes)
    }

    /** `fetchNotesFromCoreData`: the user's records, sorted by timestamp
        descending and converted with `toNote()`. `stateOf` gives each record's
        derived sync state. */
    method FetchNotesFromCoreData(stateOf: CacheKey -> SyncState)
      modifies this`notes
      ensures user.None? ==> notes == old(notes)
      ensures LoadedFromCache(stateOf)
    {
      if user.None? {
        return;
      }
      notes := LoadUserRecords(cache, user.value, stateOf);
    }

    /** `syncNotesToCoreData`: with a user, upserts each fetched note into the
        user's records, not marked `needsSync`. */
    method SyncNotesToCoreData(fetched: seq<Note>)
      modifies this`cache
      ensures cache == if user.Some? then ApplyFetched(old(cache), user.value, fetched) else old(cache)
    {
      if user.None? {
        return;
      }
      var u := user.value;
      var i := 0;
      while i < |fetched|
        invariant 0 <= i <= |fetched|
        invariant ApplyFetched(cache, u, fetched[i..]) == ApplyFetched(old(cache), u, fetched)
      {
        var note := fetched[i];
        // the existing record and a new one end up with the same attributes
        cache := cache[CacheKey(note.id, u) := EntryOf(note, false)];
        assert fetched[i..][1..] == fetched[i + 1..];
        i := i + 1;
      }
    }
  }

  /** One cached record with the note's id (of whichever owner the fetch
      returns first) now holds the note's fields and is marked `needsSync`;
      without such a record the cache is unchanged. */
  ghost predicate RecordRewritten(before: Cache, after: Cache, n: Note) {
    if exists k :: k in before && k.id == n.id
    then exists k :: k in before && k.id == n.id && after == before[k := EntryOf(n, true)]
    else after == before
  }

  /** Timestamps never increase along the list. */
  ghost predicate NewestFirst(s: seq<Note>) {
    forall i, j :: 0 <= i < j < |s| ==> s[i].timestamp >= s[j].timestamp
  }

  ghost predicate AllAtLeast(s: seq<Note>, t: int) {
    forall i :: 0 <= i < |s| ==> s[i].timestamp >= t
  }

  lemma AppendNewest(s: seq<Note>, x: Note)
    requires NewestFirst(s) && AllAtLeast(s, x.timestamp)
    ensures NewestFirst(s + [x])
  {
  }

  lemma AppendAtLeast(s: seq<Note>, x: Note, t: int)
    requires AllAtLeast(s, t) && x.timestamp >= t
    ensures AllAtLeast(s + [x], t)
  {
  }

  /** Some key of a non-empty set of records has the largest timestamp. */
  lemma {:induction false} NewestExists(cache: Cache, keys: set<CacheKey>)
    requires keys != {} && keys <= cache.Keys
    ensures exists k :: k in keys && forall k' :: k' in keys ==> cache[k'].timestamp <= cache[k].timestamp
  {
    var k :| k in keys;
    if keys != {k} {
      NewestExists(cache, keys - {k});
      var m :| m in keys - {k} && forall k' :: k' in keys - {k} ==> cache[k'].timestamp <= cache[m].timestamp;
      if cache[k].timestamp <= cache[m].timestamp {
        assert forall k' :: k' in keys ==> cache[k'].timestamp <= cache[m].timestamp;
      } else {
        assert forall k' :: k' in keys ==> cache[k'].timestamp <= cache[k].timestamp;
      }
    } else {
      assert forall k' :: k' in keys ==> cache[k'].timestamp <= cache[k].timestamp;
    }
  }
}
