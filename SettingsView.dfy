/**
 * The bulk deletion of unpinned notes offered by SettingsView.swift. The
 * settings screen works on the note store it was handed (its `notes` binding,
 * the Core Data context, UserDefaults and Firestore).
 */
module SettingsView {
  import opened Wrappers
  import opened Components
  import opened NoteList
  import opened ContentView

  /** The user's unpinned records, which the deletion fetch selects. */
  function UnpinnedKeys(cache: Cache, userId: string): set<CacheKey> {
    set k | k in cache && !cache[k].isPinned && k.userId == userId
  }

  /** The records left once the user's unpinned ones are gone: a record
      survives exactly when it is pinned or belongs to someone else, and the
      survivors keep their values. */
  function WithoutUnpinned(cache: Cache, userId: string): (r: Cache)
    ensures forall k :: k in r <==> k in cache && (cache[k].isPinned || k.userId != userId)
    ensures forall k :: k in r ==> r[k] == cache[k]
  {
    map k | k in cache && k !in UnpinnedKeys(cache, userId) :: cache[k]
  }

  /** `deleteUnpinnedNotes`: without a user nothing happens. Otherwise each of
      the user's unpinned records is deleted from the context, and that change
      stands even when the save then fails; only a successful save goes on to
      keep the pinned notes in the list, to query Firestore for the unpinned
      documents when online or to set the pending flag when offline, and to
      dismiss the screen. */
  method DeleteUnpinnedNotes(store: NoteStore, saveOk: bool) returns (dismissed: bool)
    requires store.Valid()
    modifies store`cache, store`notes, store`defaults, store`inFlight
    ensures store.Valid()
    ensures dismissed <==> store.user.Some? && saveOk
    ensures store.user.None? ==>
              store.cache == old(store.cache) && store.notes == old(store.notes)
              && store.defaults == old(store.defaults) && store.inFlight == old(store.inFlight)
    ensures store.user.Some? ==>
              var u := store.user.value;
              && store.cache == WithoutUnpinned(old(store.cache), u)
              && (!saveOk ==>
                    store.notes == old(store.notes) && store.defaults == old(store.defaults)
                    && store.inFlight == old(store.inFlight))
              && (saveOk ==> store.notes == PinnedOnly(old(store.notes)))
              && (saveOk && store.isConnected ==>
                    store.defaults == old(store.defaults)
                    && store.inFlight == old(store.inFlight) + multiset{DeleteUnpinned(u)})
              && (saveOk && !store.isConnected ==>
                    store.defaults == old(store.defaults)[UnpinnedNotesNeedDeletionKey := BoolValue(true)]
                    && store.inFlight == old(store.inFlight))
  {
    dismissed := false;
    if store.user.None? {
      return;
    }
    var u := store.user.value;

    // isPinned == false AND userId == u
    var notesToDelete := UnpinnedKeys(store.cache, u);
    ghost var original := store.cache;
    while notesToDelete != {}
      modifies store`cache
      invariant notesToDelete <= UnpinnedKeys(original, u)
      invariant store.cache == map k | k in original && k !in UnpinnedKeys(original, u) - notesToDelete :: original[k]
      decreases |notesToDelete|
    {
      var k :| k in notesToDelete;
      store.cache := store.cache - {k};
      notesToDelete := notesToDelete - {k};
    }
    if !saveOk {
      return;
    }

    store.notes := PinnedOnly(store.notes);
    if store.isConnected {
      DeleteUnpinnedNotesFromFirebase(store, u);
    } else {
      DeletedNoteIdsIgnoresOtherKeys(store.defaults, UnpinnedNotesNeedDeletionKey, BoolValue(true));
      store.defaults := store.defaults[UnpinnedNotesNeedDeletionKey := BoolValue(true)];
    }
    dismissed := true;
  }

  /** `deleteUnpinnedNotesFromFirebase(userId:)`: issues the query for the
      given user's unpinned documents. Its completion handler is the same as
      the note list's, `NoteStore.OnUnpinnedQueryCompleted`. */
  method DeleteUnpinnedNotesFromFirebase(store: NoteStore, userId: string)
    modifies store`inFlight
    ensures store.inFlight == old(store.inFlight) + multiset{DeleteUnpinned(userId)}
  {
    store.inFlight := store.inFlight + multiset{DeleteUnpinned(userId)};
  }
}
