/**
 * The session registry of the unrar prototype (unrar/js/app.js): the mounted
 * volumes and the state persisted under the storage key `state`, which holds
 * only the retained entry id of each volume. As in `App`, asynchronous
 * callbacks are event methods and host outcomes are parameters.
 */
module UnrarApp {
  import opened Wrappers
  import opened UnrarVolume
  import JsVolume
  import Wire
  import Decompressor

  /** What the storage callback of `restoreState_` leads to. */
  datatype StoredEntry =
    | StateFailed                        // `onError('FAILED')`
    | StateThrew                         // a TypeError on a missing record or a failed `restoreEntry`
    | EntryRestored(entry: JsVolume.ArchiveEntry)

  /** The synchronous part of `restoreState_`, for a volume already in memory or not. */
  datatype RestoreStep = Ready | RestoreFailed | ReadStorage

  /** `loadVolume_`: refused while a volume exists for the id, otherwise started. */
  datatype LoadReply = LoadRefused | MetadataRequested(volume: Volume, call: JsVolume.EngineCall)

  datatype UnmountReply = Unmounted | UnmountFailed

  class App {
    var volumes: map<string, Volume>
    /** The stored `state` item: entry ids by file system id; `None` when never written. */
    var storage: Option<map<string, string>>
    var naclModuleLoaded: bool

    constructor(storage: Option<map<string, string>>)
      ensures volumes == map[] && this.storage == storage && !naclModuleLoaded
    {
      volumes := map[];
      this.storage := storage;
      naclModuleLoaded := false;
    }

    /** `moduleDidLoad_`. */
    method ModuleDidLoad()
      modifies this
      ensures naclModuleLoaded
      ensures volumes == old(volumes) && storage == old(storage)
    {
      naclModuleLoaded := true;
    }

    /** The state `saveState_` writes: one retained entry id for every volume in memory. */
    function Snapshot(retain: JsVolume.ArchiveEntry -> string): (s: map<string, string>)
      reads this, volumes.Values
      ensures s.Keys == volumes.Keys
      ensures forall id :: id in volumes ==> s[id] == retain(volumes[id].entry)
    {
      map id | id in volumes :: retain(volumes[id].entry)
    }

    /** `saveState_`: the stored state is rebuilt from exactly the current volumes. */
    method SaveState(retain: JsVolume.ArchiveEntry -> string)
      modifies this
      ensures storage == Some(old(Snapshot(retain)))
      ensures volumes == old(volumes) && naclModuleLoaded == old(naclModuleLoaded)
    {
      var snapshot := Snapshot(retain);
      var state: map<string, string> := map[];
      var remaining := volumes.Keys;
      while remaining != {}
        invariant remaining <= volumes.Keys
        invariant forall id :: id in state <==> id in volumes && id !in remaining
        invariant forall id :: id in state ==> state[id] == snapshot[id]
        decreases remaining
      {
        var volumeId :| volumeId in remaining;
        state := state[volumeId := retain(volumes[volumeId].entry)];
        remaining := remaining - {volumeId};
      }
      assert state == snapshot;
      storage := Some(state);
    }

    /** `restoreState_` up to the storage read: a volume in memory answers at once, without storage. */
    method RestoreState(fileSystemId: string) returns (r: RestoreStep)
      ensures fileSystemId in volumes && volumes[fileSystemId].IsReady() <==> r == Ready
      ensures fileSystemId in volumes && !volumes[fileSystemId].IsReady() <==> r == RestoreFailed
      ensures fileSystemId !in volumes <==> r == ReadStorage
    {
      if fileSystemId in volumes {
        var volume := volumes[fileSystemId];
        r := if volume.IsReady() then Ready else RestoreFailed;
      } else {
        r := ReadStorage;
      }
    }

    /**
     * The storage callback of `restoreState_`: FAILED without the module or
     * without stored state; the record and the restored entry are used
     * unchecked, so their absence throws.
     */
    function ReadStoredEntry(fileSystemId: string, restoreEntry: string -> Option<JsVolume.ArchiveEntry>)
      : (r: StoredEntry)
      reads this
      ensures r == StateFailed <==> !naclModuleLoaded || storage.None?
      ensures r == StateThrew <==> naclModuleLoaded && storage.Some? &&
                                   (fileSystemId !in storage.value || restoreEntry(storage.value[fileSystemId]).None?)
      ensures r.EntryRestored? ==> storage.Some? && fileSystemId in storage.value &&
                                   restoreEntry(storage.value[fileSystemId]) == Some(r.entry)
    {
      if !naclModuleLoaded || storage.None? then StateFailed
      else if fileSystemId !in storage.value then StateThrew
      else match restoreEntry(storage.value[fileSystemId])
        case None => StateThrew
        case Some(entry) => EntryRestored(entry)
    }

    /**
     * `loadVolume_`: with a volume already registered for the id the load is
     * refused (FAILED); otherwise the volume is registered before its metadata
     * is requested. The prototype's decompressor gets no archive bytes.
     */
    method LoadVolume(fileSystemId: string, entry: JsVolume.ArchiveEntry, requestId: Option<int>)
      returns (r: LoadReply)
      modifies this
      ensures fileSystemId in old(volumes) ==> r == LoadRefused && volumes == old(volumes)
      ensures fileSystemId !in old(volumes) ==>
                && r.MetadataRequested? && fresh(r.volume) && volumes == old(volumes)[fileSystemId := r.volume]
                && r.volume.fileSystemId == fileSystemId && r.volume.entry == entry && !r.volume.IsReady()
                && r.volume.decompressor.requestsInProgress == map[]
                && r.call == JsVolume.ReadMetadataCall(if requestId.None? || requestId.value == 0 then -1
                                                       else requestId.value)
      ensures storage == old(storage) && naclModuleLoaded == old(naclModuleLoaded)
    {
      if fileSystemId in volumes {
        return LoadRefused;
      }
      var decompressor := new Decompressor.Decompressor(fileSystemId, []);
      var volume := new Volume(decompressor, fileSystemId, entry);
      volumes := volumes[fileSystemId := volume];
      var call := volume.ReadMetadata(requestId);
      r := MetadataRequested(volume, call);
    }

    /** `onUnmountRequested`: after a successful host unmount the volume is forgotten and the state rebuilt. */
    method OnUnmountRequested(fileSystemId: string, unmountOk: bool, retain: JsVolume.ArchiveEntry -> string)
      returns (r: UnmountReply)
      modifies this
      ensures unmountOk ==> r == Unmounted && volumes == old(volumes) - {fileSystemId}
      ensures unmountOk ==> storage == Some(Snapshot(retain)) && fileSystemId !in storage.value
      ensures !unmountOk ==> r == UnmountFailed && volumes == old(volumes) && storage == old(storage)
      ensures naclModuleLoaded == old(naclModuleLoaded)
    {
      if !unmountOk {
        return UnmountFailed;
      }
      volumes := volumes - {fileSystemId};
      SaveState(retain);
      r := Unmounted;
    }

    /** The `mount` callbacks of `onLaunched`: only a successful mount saves the state. */
    method OnMounted(mountOk: bool, retain: JsVolume.ArchiveEntry -> string)
      modifies this
      ensures mountOk ==> storage == Some(old(Snapshot(retain)))
      ensures !mountOk ==> storage == old(storage)
      ensures volumes == old(volumes) && naclModuleLoaded == old(naclModuleLoaded)
    {
      if mountOk {
        SaveState(retain);
      }
    }
  }
}
