/** The client's `files` store: the loaded data, the list of file names,
    the selected file, the sort settings, the request status and the last
    error, updated in place by one method per action. */
module FilesSlice {
  import opened JsValues
  import opened Formatters

  /** `STATUS`: the life cycle of the data request. */
  datatype Status = Idle | Loading | Succeeded | Failed

  /** The row properties a table column sorts by. */
  datatype Column = FileName | Text | Number | Hex

  /** `'asc'` or `'desc'`. */
  datatype Direction = Asc | Desc

  /** `sortConfig`: `key` is `null` when the rows are not sorted. */
  datatype SortConfig = SortConfig(key: Option<Column>, direction: Direction)

  /** A snapshot of the store. `data` is `None` when the last payload was
      not an array; `selectedFile` and `error` are `None` for `null`. */
  datatype FilesState = FilesState(
    data: Option<seq<FileEntry>>,
    list: seq<string>,
    selectedFile: Option<string>,
    sortConfig: SortConfig,
    status: Status,
    error: Option<string>)

  /** `initialState`. */
  const InitialState := FilesState(Some([]), [], None, SortConfig(None, Asc), Idle, None)

  const FetchDataFailed: string := "Failed to fetch files data"
  const FetchListFailed: string := "Failed to fetch files list"

  /** `action.payload || fallback` for the message of a rejected request. */
  function RejectionMessage(payload: Option<string>, fallback: string): (m: string)
    requires fallback != []
    ensures m != []
    ensures PresentNonEmpty(payload) ==> m == payload.value
    ensures !PresentNonEmpty(payload) ==> m == fallback
  {
    if PresentNonEmpty(payload) then payload.value else fallback
  }

  /** The error recorded in a snapshot is never the empty string. */
  predicate ErrorIsMeaningful(s: FilesState) {
    s.error.None? || s.error.value != []
  }

  lemma InitialStateIsMeaningful()
    ensures ErrorIsMeaningful(InitialState)
    ensures InitialState.error.None? && InitialState.selectedFile.None? && InitialState.list == []
    ensures InitialState.data == Some([]) && InitialState.status == Idle
    ensures InitialState.sortConfig.key.None? && InitialState.sortConfig.direction == Asc
  {
  }

  class FilesStore {
    var data: Option<seq<FileEntry>>
    var list: seq<string>
    var selectedFile: Option<string>
    var sortConfig: SortConfig
    var status: Status
    var error: Option<string>

    /** The store's current state as a value. */
    function Snapshot(): FilesState
      reads this
    {
      FilesState(data, list, selectedFile, sortConfig, status, error)
    }

    /** The store before any action. */
    constructor()
      ensures Snapshot() == InitialState
      ensures ErrorIsMeaningful(Snapshot())
    {
      data := Some([]);
      list := [];
      selectedFile := None;
      sortConfig := SortConfig(None, Asc);
      status := Idle;
      error := None;
    }

    /** `setSelectedFile`: changes the selection and nothing else. */
    method SetSelectedFile(file: Option<string>)
      modifies this
      ensures Snapshot() == old(Snapshot()).(selectedFile := file)
      ensures old(ErrorIsMeaningful(Snapshot())) ==> ErrorIsMeaningful(Snapshot())
    {
      selectedFile := file;
    }

    /** `setSortConfig`: replaces the sort settings and nothing else. */
    method SetSortConfig(config: SortConfig)
      modifies this
      ensures Snapshot() == old(Snapshot()).(sortConfig := config)
      ensures old(ErrorIsMeaningful(Snapshot())) ==> ErrorIsMeaningful(Snapshot())
    {
      sortConfig := config;
    }

    /** `clearError`: forgets the error and nothing else. */
    method ClearError()
      modifies this
      ensures Snapshot() == old(Snapshot()).(error := None)
      ensures ErrorIsMeaningful(Snapshot())
    {
      error := None;
    }

    /** `resetFiles`: back to the initial state, whatever the state was. */
    method ResetFiles()
      modifies this
      ensures Snapshot() == InitialState
      ensures ErrorIsMeaningful(Snapshot())
    {
      data := Some([]);
      list := [];
      selectedFile := None;
      sortConfig := SortConfig(None, Asc);
      status := Idle;
      error := None;
    }

    /** `fetchFilesData.pending`: loading, with no error. */
    method FetchFilesDataPending()
      modifies this
      ensures Snapshot() == old(Snapshot()).(status := Loading, error := None)
      ensures ErrorIsMeaningful(Snapshot())
    {
      status := Loading;
      error := None;
    }

    /** `fetchFilesData.fulfilled`: the payload becomes the data. */
    method FetchFilesDataFulfilled(payload: Option<seq<FileEntry>>)
      modifies this
      ensures Snapshot() == old(Snapshot()).(status := Succeeded, data := payload, error := None)
      ensures ErrorIsMeaningful(Snapshot())
    {
      status := Succeeded;
      data := payload;
      error := None;
    }

    /** `fetchFilesData.rejected`: failed, with the payload or the default
      message as the error; the data stays as it was. */
    method FetchFilesDataRejected(payload: Option<string>)
      modifies this
      ensures Snapshot() == old(Snapshot()).(status := Failed,
                                             error := Some(RejectionMessage(payload, FetchDataFailed)))
      ensures ErrorIsMeaningful(Snapshot())
    {
      status := Failed;
      error := Some(RejectionMessage(payload, FetchDataFailed));
    }

    /** `fetchFilesList.pending`: clears the error; the status is untouched. */
    method FetchFilesListPending()
      modifies this
      ensures Snapshot() == old(Snapshot()).(error := None)
      ensures ErrorIsMeaningful(Snapshot())
    {
      error := None;
    }

    /** `fetchFilesList.fulfilled`: the payload becomes the list. */
    method FetchFilesListFulfilled(payload: seq<string>)
      modifies this
      ensures Snapshot() == old(Snapshot()).(list := payload)
      ensures old(ErrorIsMeaningful(Snapshot())) ==> ErrorIsMeaningful(Snapshot())
    {
      list := payload;
    }

    /** `fetchFilesList.rejected`: records the payload or the default message
      as the error; the status is untouched. */
    method FetchFilesListRejected(payload: Option<string>)
      modifies this
      ensures Snapshot() == old(Snapshot()).(error := Some(RejectionMessage(payload, FetchListFailed)))
      ensures ErrorIsMeaningful(Snapshot())
    {
      error := Some(RejectionMessage(payload, FetchListFailed));
    }
  }

  /** `resetFiles` is idempotent: resetting a reset store changes nothing. */
  method ResetTwice(store: FilesStore)
    modifies store
    ensures store.Snapshot() == InitialState
  {
    store.ResetFiles();
    var once := store.Snapshot();
    store.ResetFiles();
    assert store.Snapshot() == once;
  }

  /** A request that fails after it started leaves the previous data in place
      and a non-empty error behind. */
  method LoadThenFail(store: FilesStore, payload: Option<string>)
    modifies store
    ensures store.Snapshot().data == old(store.Snapshot().data)
    ensures store.Snapshot().status == Failed
    ensures store.Snapshot().error.Some? && store.Snapshot().error.value != []
  {
    store.FetchFilesDataPending();
    store.FetchFilesDataRejected(payload);
  }

  /** The list requests never change the status. */
  method ListRequestsKeepStatus(store: FilesStore, names: seq<string>, message: Option<string>)
    modifies store
    ensures store.Snapshot().status == old(store.Snapshot().status)
    ensures store.Snapshot().list == names
    ensures store.Snapshot().error == Some(RejectionMessage(message, FetchListFailed))
  {
    store.FetchFilesListPending();
    store.FetchFilesListFulfilled(names);
    store.FetchFilesListRejected(message);
  }
}
