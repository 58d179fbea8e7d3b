/**
 * The session registry of the extension (unpacker/js/app.js): the mounted
 * volumes, the per-volume load promises that de-duplicate restores, the state
 * persisted under the storage key `state`, and the messages posted to the
 * native module. Every asynchronous callback of the source is an event
 * method here; the outcome of each host call (storage, `retainEntry`,
 * `restoreEntry`, `mount`, `unmount`) arrives as a parameter.
 */
module App {
  import opened Wrappers
  import opened JsVolume
  import Metadata
  import Wire
  import JsRequest
  import Decompressor

  /** What is saved for one volume: the retained entry id and the files open at the time. */
  datatype VolumeState = VolumeState(entryId: string, openedFiles: map<int, OpenOptions>)

  /** `result[app.STORAGE_KEY]` once it exists, or the `{}` a first save starts from. */
  function StoredBase(storage: Option<map<string, VolumeState>>): map<string, VolumeState>
  {
    if storage.Some? then storage.value else map[]
  }

  /** The stored dictionary after `fileSystemIds` are written in order from `snapshot`. */
  function Overwrite(base: map<string, VolumeState>, fileSystemIds: seq<string>,
                     snapshot: map<string, VolumeState>): map<string, VolumeState>
    requires forall i :: 0 <= i < |fileSystemIds| ==> fileSystemIds[i] in snapshot
    decreases |fileSystemIds|
  {
    if fileSystemIds == [] then base
    else
      var last := fileSystemIds[|fileSystemIds| - 1];
      Overwrite(base, fileSystemIds[..|fileSystemIds| - 1], snapshot)[last := snapshot[last]]
  }

  /** `s` is `base` with exactly the ids in `written` set from `snapshot`. */
  ghost predicate SavedOver(s: map<string, VolumeState>, base: map<string, VolumeState>, written: set<string>,
                      snapshot: map<string, VolumeState>)
  {
    && (forall id :: id in s <==> id in base || id in written)
    && (forall id :: id in written ==> id in snapshot && s[id] == snapshot[id])
    && (forall id :: id in base && id !in written ==> s[id] == base[id])
  }

  /** Saving overwrites the state of exactly the ids passed and leaves every other stored id untouched. */
  lemma {:induction false} OverwriteSaves(base: map<string, VolumeState>, fileSystemIds: seq<string>,
                                          snapshot: map<string, VolumeState>)
    requires forall i :: 0 <= i < |fileSystemIds| ==> fileSystemIds[i] in snapshot
    ensures SavedOver(Overwrite(base, fileSystemIds, snapshot), base, (set id | id in fileSystemIds), snapshot)
    decreases |fileSystemIds|
  {
    if fileSystemIds != [] {
      var front := fileSystemIds[..|fileSystemIds| - 1];
      var last := fileSystemIds[|fileSystemIds| - 1];
      OverwriteSaves(base, front, snapshot);
      SavedOverWrite(Overwrite(base, front, snapshot), base, (set id | id in front), snapshot, last);
      assert (set id | id in fileSystemIds) == (set id | id in front) + {last} by {
        assert fileSystemIds == front + [last];
      }
    }
  }

  /** Writing one more id from the snapshot adds it to the ids written. */
  lemma SavedOverWrite(s: map<string, VolumeState>, base: map<string, VolumeState>, written: set<string>,
                       snapshot: map<string, VolumeState>, fileSystemId: string)
    requires SavedOver(s, base, written, snapshot) && fileSystemId in snapshot
    ensures SavedOver(s[fileSystemId := snapshot[fileSystemId]], base, written + {fileSystemId}, snapshot)
  {
  }

  /** `onStartup`: every stored volume keeps its entry id and has no open files. */
  function ClearOpenedFiles(stored: map<string, VolumeState>): (r: map<string, VolumeState>)
    ensures r.Keys == stored.Keys
    ensures forall id :: id in stored ==> r[id].entryId == stored[id].entryId && r[id].openedFiles == map[]
  {
    map id | id in stored :: stored[id].(openedFiles := map[])
  }

  /** What a successful restore hands to `loadVolume_`. */
  datatype Restored = Restored(entry: ArchiveEntry, openedFiles: map<int, OpenOptions>)

  /**
   * `restoreVolumeState_`: `None` is `onErrorRestore('FAILED')`, which follows
   * a missing stored dictionary, a missing record for the id, or an error from
   * `restoreEntry`.
   */
  function RestoreVolumeState(storage: Option<map<string, VolumeState>>, fileSystemId: string,
                              restoreEntry: string -> Option<ArchiveEntry>): (r: Option<Restored>)
    ensures r.Some? <==> storage.Some? && fileSystemId in storage.value &&
                         restoreEntry(storage.value[fileSystemId].entryId).Some?
    ensures r.Some? ==> r.value.openedFiles == storage.value[fileSystemId].openedFiles &&
                        Some(r.value.entry) == restoreEntry(storage.value[fileSystemId].entryId)
  {
    if storage.None? || fileSystemId !in storage.value then None
    else
      var volumeState := storage.value[fileSystemId];
      match restoreEntry(volumeState.entryId)
      case None => None
      case Some(entry) => Some(Restored(entry, volumeState.openedFiles))
  }

  /** A state saved for an entry that `restoreEntry` gives back is restored with the same open files. */
  lemma SaveThenRestore(stored: map<string, VolumeState>, fileSystemId: string, entry: ArchiveEntry,
                        retain: ArchiveEntry -> string, restoreEntry: string -> Option<ArchiveEntry>,
                        openedFiles: map<int, OpenOptions>)
    requires restoreEntry(retain(entry)) == Some(entry)
    requires fileSystemId in stored && stored[fileSystemId] == VolumeState(retain(entry), openedFiles)
    ensures RestoreVolumeState(Some(stored), fileSystemId, restoreEntry) == Some(Restored(entry, openedFiles))
  {
  }

  /** After `onStartup`, a restore never brings back open files. */
  lemma StartupRestoresNoOpenFiles(stored: map<string, VolumeState>, fileSystemId: string,
                                   restoreEntry: string -> Option<ArchiveEntry>)
    ensures var r := RestoreVolumeState(Some(ClearOpenedFiles(stored)), fileSystemId, restoreEntry);
            r.Some? ==> r.value.openedFiles == map[]
  {
  }

  // ---- Load promises ----

  /** Who created a load promise: `onLaunched` (with an entry) or `restoreSingleVolume_` (without). */
  datatype Origin = Launch | Restore

  datatype LoadState = Loading | Loaded | LoadFailed(error: ProviderError)

  /** A promise stored in `volumeLoadedPromises`; the ticket tells promises of the same id apart. */
  datatype LoadPromise = LoadPromise(ticket: nat, origin: Origin, state: LoadState)

  /** Settling the promise `ticket` of `fileSystemId`: a promise settles once, and only if it is still stored. */
  function Settled(promises: map<string, LoadPromise>, fileSystemId: string, ticket: nat, outcome: LoadState)
    : (r: map<string, LoadPromise>)
    ensures r.Keys == promises.Keys
    ensures forall id :: id in promises && id != fileSystemId ==> r[id] == promises[id]
    ensures fileSystemId in promises ==>
              r[fileSystemId] == if promises[fileSystemId].ticket == ticket && promises[fileSystemId].state.Loading?
                                 then promises[fileSystemId].(state := outcome) else promises[fileSystemId]
  {
    if fileSystemId in promises && promises[fileSystemId].ticket == ticket && promises[fileSystemId].state.Loading?
    then promises[fileSystemId := promises[fileSystemId].(state := outcome)]
    else promises
  }

  /** A second settlement of the same promise changes nothing. */
  lemma SettlesOnce(promises: map<string, LoadPromise>, fileSystemId: string, ticket: nat,
                    first: LoadState, second: LoadState)
    requires first != Loading
    ensures Settled(Settled(promises, fileSystemId, ticket, first), fileSystemId, ticket, second) ==
            Settled(promises, fileSystemId, ticket, first)
  {
  }

  /** How `onUnmountRequested` answers: `onSuccess`, `onError(error)`, or a thrown TypeError. */
  datatype UnmountReply = Unmounted | UnmountError(error: ProviderError) | UnmountThrew

  class App {
    var volumes: map<string, Volume>
    var volumeLoadedPromises: map<string, LoadPromise>
    /** `chrome.storage.local`'s `state` item; `None` when it was never written. */
    var storage: Option<map<string, VolumeState>>
    /** The messages posted to the native module by the registry itself. */
    var naclOutbox: seq<Wire.Message>
    /** The next promise ticket. */
    var nextTicket: nat

    /** Every stored promise has a ticket below `nextTicket`, so a new promise is told apart from them. */
    predicate Valid()
      reads this
    {
      forall id :: id in volumeLoadedPromises ==> volumeLoadedPromises[id].ticket < nextTicket
    }

    /** The registry at the start of a run, over the state stored by an earlier run. */
    constructor(storage: Option<map<string, VolumeState>>)
      ensures Valid()
      ensures volumes == map[] && volumeLoadedPromises == map[] && naclOutbox == []
      ensures this.storage == storage
    {
      volumes := map[];
      volumeLoadedPromises := map[];
      this.storage := storage;
      naclOutbox := [];
      nextTicket := 0;
    }

    /** What `saveState_` would write for every mounted volume. */
    function Snapshot(retain: ArchiveEntry -> string): (s: map<string, VolumeState>)
      reads this, volumes.Values
      ensures s.Keys == volumes.Keys
    {
      map id | id in volumes :: VolumeState(retain(volumes[id].entry), volumes[id].openedFiles)
    }

    /**
     * `saveState_`: writes `{entryId, openedFiles}` for each id in turn. An id
     * with no volume throws inside the storage callback, so nothing is stored.
     */
    method SaveState(fileSystemIds: seq<string>, retain: ArchiveEntry -> string)
      modifies this
      ensures volumes == old(volumes) && volumeLoadedPromises == old(volumeLoadedPromises)
      ensures naclOutbox == old(naclOutbox) && nextTicket == old(nextTicket)
      ensures (exists i :: 0 <= i < |fileSystemIds| && fileSystemIds[i] !in volumes) ==> storage == old(storage)
      ensures (forall i :: 0 <= i < |fileSystemIds| ==> fileSystemIds[i] in volumes) ==>
                storage == Some(Overwrite(StoredBase(old(storage)), fileSystemIds, old(Snapshot(retain))))
    {
      var snapshot := Snapshot(retain);
      var base := StoredBase(storage);
      var result := base;
      var i := 0;
      while i < |fileSystemIds|
        invariant 0 <= i <= |fileSystemIds|
        invariant forall j :: 0 <= j < i ==> fileSystemIds[j] in volumes
        invariant result == Overwrite(base, fileSystemIds[..i], snapshot)
      {
        var fileSystemId := fileSystemIds[i];
        if fileSystemId !in volumes {
          return;
        }
        var volume := volumes[fileSystemId];
        assert fileSystemIds[..i + 1][..i] == fileSystemIds[..i];
        result := result[fileSystemId := VolumeState(retain(volume.entry), volume.openedFiles)];
        i := i + 1;
      }
      assert fileSystemIds[..i] == fileSystemIds;
      storage := Some(result);
    }

    /** `removeState_`: without a stored dictionary the callback throws and nothing changes. */
    method RemoveState(fileSystemId: string)
      modifies this
      ensures volumes == old(volumes) && volumeLoadedPromises == old(volumeLoadedPromises)
      ensures naclOutbox == old(naclOutbox) && nextTicket == old(nextTicket)
      ensures storage == if old(storage).None? then None else Some(old(storage).value - {fileSystemId})
    {
      if storage.Some? {
        storage := Some(storage.value - {fileSystemId});
      }
    }

    /** `cleanupVolume`: closes the volume on the native side and forgets it and its promise. */
    method CleanupVolume(fileSystemId: string)
      requires Valid()
      modifies this
      ensures Valid()
      ensures naclOutbox == old(naclOutbox) + [JsRequest.CloseVolumeRequest(fileSystemId)]
      ensures volumes == old(volumes) - {fileSystemId}
      ensures volumeLoadedPromises == old(volumeLoadedPromises) - {fileSystemId}
      ensures storage == old(storage) && nextTicket == old(nextTicket)
    {
      naclOutbox := naclOutbox + [JsRequest.CloseVolumeRequest(fileSystemId)];
      volumes := volumes - {fileSystemId};
      volumeLoadedPromises := volumeLoadedPromises - {fileSystemId};
    }

    /**
     * `onUnmountRequested`: a volume in use is not unmounted unless forced;
     * `unmountOk` is the outcome of `chrome.fileSystemProvider.unmount`.
     */
    method OnUnmountRequested(fileSystemId: string, forceUnmount: bool, unmountOk: bool) returns (r: UnmountReply)
      requires Valid()
      modifies this
      ensures Valid()
      ensures !forceUnmount && fileSystemId !in old(volumes) ==> r == UnmountThrew
      ensures !forceUnmount && fileSystemId in old(volumes) && old(volumes[fileSystemId].InUse()) ==>
                r == UnmountError(InUse)
      ensures (forceUnmount || (fileSystemId in old(volumes) && !old(volumes[fileSystemId].InUse()))) ==>
                r == if unmountOk then Unmounted else UnmountError(Failed)
      ensures r.Unmounted? ==>
                && naclOutbox == old(naclOutbox) + [JsRequest.CloseVolumeRequest(fileSystemId)]
                && volumes == old(volumes) - {fileSystemId}
                && volumeLoadedPromises == old(volumeLoadedPromises) - {fileSystemId}
                && storage == (if old(storage).None? then None else Some(old(storage).value - {fileSystemId}))
      ensures !r.Unmounted? ==>
                && naclOutbox == old(naclOutbox) && volumes == old(volumes)
                && volumeLoadedPromises == old(volumeLoadedPromises) && storage == old(storage)
      ensures nextTicket == old(nextTicket)
    {
      if !forceUnmount {
        if fileSystemId !in volumes {
          return UnmountThrew;
        }
        var volume := volumes[fileSystemId];
        if volume.InUse() {
          return UnmountError(InUse);
        }
      }
      if unmountOk {
        CleanupVolume(fileSystemId);
        RemoveState(fileSystemId);
        r := Unmounted;
      } else {
        r := UnmountError(Failed);
      }
    }

    /**
     * `restoreSingleVolume_`: creates a restore promise only when none is
     * stored for the id; every caller gets the stored one.
     */
    method RestoreSingleVolume(fileSystemId: string) returns (ticket: nat, created: bool)
      requires Valid()
      modifies this
      ensures Valid()
      ensures created <==> fileSystemId !in old(volumeLoadedPromises)
      ensures fileSystemId in volumeLoadedPromises && ticket == volumeLoadedPromises[fileSystemId].ticket
      ensures !created ==> volumeLoadedPromises == old(volumeLoadedPromises) && nextTicket == old(nextTicket)
      ensures created ==> volumeLoadedPromises == old(volumeLoadedPromises)[fileSystemId :=
                            LoadPromise(old(nextTicket), Restore, Loading)] &&
                          ticket == old(nextTicket) && nextTicket == old(nextTicket) + 1
      ensures volumes == old(volumes) && storage == old(storage) && naclOutbox == old(naclOutbox)
    {
      created := fileSystemId !in volumeLoadedPromises;
      if created {
        volumeLoadedPromises := volumeLoadedPromises[fileSystemId := LoadPromise(nextTicket, Restore, Loading)];
        nextTicket := nextTicket + 1;
      }
      ticket := volumeLoadedPromises[fileSystemId].ticket;
    }

    /**
     * The display-path callback of `onLaunched` for one item: a volume that is
     * loading or loaded is skipped; otherwise a launch promise is stored.
     */
    method OnLaunchedItem(fileSystemId: string) returns (ticket: Option<nat>)
      requires Valid()
      modifies this
      ensures Valid()
      ensures fileSystemId in old(volumeLoadedPromises) ==>
                ticket.None? && volumeLoadedPromises == old(volumeLoadedPromises) && nextTicket == old(nextTicket)
      ensures fileSystemId !in old(volumeLoadedPromises) ==>
                ticket == Some(old(nextTicket)) && nextTicket == old(nextTicket) + 1 &&
                volumeLoadedPromises == old(volumeLoadedPromises)[fileSystemId := LoadPromise(old(nextTicket), Launch, Loading)]
      ensures volumes == old(volumes) && storage == old(storage) && naclOutbox == old(naclOutbox)
    {
      if fileSystemId in volumeLoadedPromises {
        return None;
      }
      ticket := Some(nextTicket);
      volumeLoadedPromises := volumeLoadedPromises[fileSystemId := LoadPromise(nextTicket, Launch, Loading)];
      nextTicket := nextTicket + 1;
    }

    /** Settles the promise `ticket` of `fileSystemId` if it is still stored and pending. */
    method Settle(fileSystemId: string, ticket: nat, outcome: LoadState)
      requires Valid()
      modifies this
      ensures Valid()
      ensures volumeLoadedPromises == Settled(old(volumeLoadedPromises), fileSystemId, ticket, outcome)
      ensures volumes == old(volumes) && storage == old(storage) && naclOutbox == old(naclOutbox)
      ensures nextTicket == old(nextTicket)
    {
      if fileSystemId in volumeLoadedPromises {
        var promise := volumeLoadedPromises[fileSystemId];
        if promise.ticket == ticket && promise.state.Loading? {
          volumeLoadedPromises := volumeLoadedPromises[fileSystemId := promise.(state := outcome)];
        }
      }
    }

    /**
     * The storage callback of a restore promise. On failure the volume is
     * force-unmounted, and then the promise is rejected with FAILED whether the
     * host unmount succeeded or not. `outcome` is what every holder of the
     * promise `ticket` receives: still `Loading` after a successful restore,
     * whose load goes on in `loadVolume_`. After a successful unmount the
     * promise is no longer stored, but its holders still see the rejection.
     */
    method OnRestoreStateRead(fileSystemId: string, ticket: nat, restoreEntry: string -> Option<ArchiveEntry>,
                              unmountOk: bool) returns (restored: Option<Restored>, outcome: LoadState)
      requires Valid()
      modifies this
      ensures Valid()
      ensures restored == RestoreVolumeState(old(storage), fileSystemId, restoreEntry)
      ensures restored.None? ==> outcome == LoadFailed(Failed)
      ensures restored.Some? ==> outcome == Loading
      ensures restored.Some? ==>
                volumes == old(volumes) && volumeLoadedPromises == old(volumeLoadedPromises) &&
                storage == old(storage) && naclOutbox == old(naclOutbox)
      ensures restored.None? && unmountOk ==>
                && naclOutbox == old(naclOutbox) + [JsRequest.CloseVolumeRequest(fileSystemId)]
                && volumes == old(volumes) - {fileSystemId}
                && volumeLoadedPromises == old(volumeLoadedPromises) - {fileSystemId}
                && storage == (if old(storage).None? then None else Some(old(storage).value - {fileSystemId}))
      ensures restored.None? && !unmountOk ==>
                && volumeLoadedPromises == Settled(old(volumeLoadedPromises), fileSystemId, ticket, LoadFailed(Failed))
                && volumes == old(volumes) && storage == old(storage) && naclOutbox == old(naclOutbox)
      ensures nextTicket == old(nextTicket)
    {
      restored := RestoreVolumeState(storage, fileSystemId, restoreEntry);
      outcome := Loading;
      if restored.None? {
        var reply := OnUnmountRequested(fileSystemId, true, unmountOk);
        // Both callbacks of the forced unmount reject the promise with FAILED.
        outcome := LoadFailed(Failed);
        Settle(fileSystemId, ticket, outcome);
      }
    }

    /**
     * The `entry.file` callback of `loadVolume_`: a decompressor over the
     * archive's bytes and a volume over it are created and registered; the
     * returned call is the metadata read the volume starts.
     */
    method LoadVolume(fileSystemId: string, entry: ArchiveEntry, blob: seq<Wire.byte>,
                      openedFiles: Option<map<int, OpenOptions>>) returns (volume: Volume, call: EngineCall)
      modifies this
      ensures fresh(volume) && fresh(volume.decompressor)
      ensures volume.entry == entry && volume.metadata.None?
      ensures volume.decompressor.fileSystemId == fileSystemId && volume.decompressor.blob == blob
      ensures volume.decompressor.requestsInProgress == map[]
      ensures volume.openedFiles == if openedFiles.Some? then openedFiles.value else map[]
      ensures volumes == old(volumes)[fileSystemId := volume]
      ensures call == ReadMetadataCall(DEFAULT_READ_METADATA_REQUEST_ID)
      ensures volumeLoadedPromises == old(volumeLoadedPromises) && storage == old(storage)
      ensures naclOutbox == old(naclOutbox) && nextTicket == old(nextTicket)
    {
      var decompressor := new Decompressor.Decompressor(fileSystemId, blob);
      volume := new Volume(decompressor, entry, openedFiles);
      volumes := volumes[fileSystemId := volume];
      call := volume.Initialize();
    }

    /**
     * The end of the metadata read started by `loadVolume_` (`metadata` is
     * `None` when the decompressor reports FAILED). With metadata, the load
     * fulfils only if no files were open before the suspend; a rejected launch
     * is cleaned up by the `catch` of `onLaunched`.
     */
    method OnVolumeMetadataRead(fileSystemId: string, ticket: nat, origin: Origin, volume: Volume,
                                metadata: Option<Metadata.Entry>, openedFiles: Option<map<int, OpenOptions>>)
      returns (outcome: LoadState)
      requires Valid()
      modifies this, volume
      ensures Valid()
      ensures metadata.None? ==> outcome == LoadFailed(Failed) && volume.metadata == old(volume.metadata)
      ensures metadata.Some? ==> volume.metadata == Some(CorrectMetadata(metadata.value))
      ensures metadata.Some? ==>
                outcome == if openedFiles.None? || |openedFiles.value| == 0 then Loaded else LoadFailed(InvalidOperation)
      ensures volume.openedFiles == old(volume.openedFiles)
      ensures outcome.LoadFailed? && origin == Launch ==>
                && naclOutbox == old(naclOutbox) + [JsRequest.CloseVolumeRequest(fileSystemId)]
                && volumes == old(volumes) - {fileSystemId}
                && volumeLoadedPromises == old(volumeLoadedPromises) - {fileSystemId}
      ensures !(outcome.LoadFailed? && origin == Launch) ==>
                && naclOutbox == old(naclOutbox) && volumes == old(volumes)
                && volumeLoadedPromises == Settled(old(volumeLoadedPromises), fileSystemId, ticket, outcome)
      ensures storage == old(storage) && nextTicket == old(nextTicket)
    {
      if metadata.None? {
        outcome := LoadFailed(Failed);
      } else {
        volume.OnMetadataRead(metadata.value);
        var saved := if openedFiles.Some? then openedFiles.value else map[];
        outcome := if |saved| == 0 then Loaded else LoadFailed(InvalidOperation);
      }
      Settle(fileSystemId, ticket, outcome);
      if outcome.LoadFailed? && origin == Launch {
        CleanupVolume(fileSystemId);
      }
    }

    /** The `mount` callbacks of `onLaunched`: success saves the volume's state, failure cleans it up. */
    method OnMounted(fileSystemId: string, mountOk: bool, retain: ArchiveEntry -> string)
      requires Valid()
      modifies this
      ensures Valid()
      ensures mountOk && fileSystemId in old(volumes) ==>
                && storage == Some(StoredBase(old(storage))[fileSystemId := old(Snapshot(retain))[fileSystemId]])
                && naclOutbox == old(naclOutbox) && volumes == old(volumes)
                && volumeLoadedPromises == old(volumeLoadedPromises)
      ensures mountOk && fileSystemId !in old(volumes) ==>
                storage == old(storage) && naclOutbox == old(naclOutbox) && volumes == old(volumes) &&
                volumeLoadedPromises == old(volumeLoadedPromises)
      ensures !mountOk ==>
                && naclOutbox == old(naclOutbox) + [JsRequest.CloseVolumeRequest(fileSystemId)]
                && volumes == old(volumes) - {fileSystemId}
                && volumeLoadedPromises == old(volumeLoadedPromises) - {fileSystemId}
                && storage == old(storage)
      ensures nextTicket == old(nextTicket)
    {
      if mountOk {
        SaveState([fileSystemId], retain);
        assert [fileSystemId][..0] == [];
      } else {
        CleanupVolume(fileSystemId);
      }
    }

    /** `onStartup`: the files open before a shutdown are dropped from every stored volume. */
    method OnStartup()
      modifies this
      ensures storage == if old(storage).None? then None else Some(ClearOpenedFiles(old(storage).value))
      ensures volumes == old(volumes) && volumeLoadedPromises == old(volumeLoadedPromises)
      ensures naclOutbox == old(naclOutbox) && nextTicket == old(nextTicket)
    {
      if storage.None? {
        return;
      }
      var stored := storage.value;
      var result := stored;
      var remaining := stored.Keys;
      while remaining != {}
        invariant remaining <= stored.Keys && result.Keys == stored.Keys
        invariant forall id :: id in remaining ==> result[id] == stored[id]
        invariant forall id :: id in stored && id !in remaining ==> result[id] == stored[id].(openedFiles := map[])
        decreases remaining
      {
        var fileSystemId :| fileSystemId in remaining;
        result := result[fileSystemId := result[fileSystemId].(openedFiles := map[])];
        remaining := remaining - {fileSystemId};
      }
      assert result == ClearOpenedFiles(stored);
      storage := Some(result);
    }

    /** `onSuspend`: the state of every mounted volume is saved; other stored ids stay as they were. */
    method OnSuspend(retain: ArchiveEntry -> string)
      modifies this
      ensures storage.Some? && SavedOver(storage.value, StoredBase(old(storage)), old(volumes.Keys), old(Snapshot(retain)))
      ensures volumes == old(volumes) && volumeLoadedPromises == old(volumeLoadedPromises)
      ensures naclOutbox == old(naclOutbox) && nextTicket == old(nextTicket)
    {
      var fileSystemIds: seq<string> := [];
      var remaining := volumes.Keys;
      while remaining != {}
        invariant remaining <= volumes.Keys
        invariant forall i :: 0 <= i < |fileSystemIds| ==> fileSystemIds[i] in volumes
        invariant forall id :: id in volumes ==> id in remaining || id in fileSystemIds
        invariant forall id :: id in remaining ==> id !in fileSystemIds
        decreases remaining
      {
        var fileSystemId :| fileSystemId in remaining;
        fileSystemIds := fileSystemIds + [fileSystemId];
        remaining := remaining - {fileSystemId};
      }
      ghost var snapshot := Snapshot(retain);
      SaveState(fileSystemIds, retain);
      OverwriteSaves(StoredBase(old(storage)), fileSystemIds, snapshot);
      assert (set id | id in fileSystemIds) == volumes.Keys;
    }
  }
}
