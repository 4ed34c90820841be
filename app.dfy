/**
 * The component state around the batch (src/App.jsx, lines 7-72): the selected
 * files, the `loading` flag and `zipUrl`, the handle of the finished archive.
 */
module App {
  import opened Wrappers
  import opened Batch

  /** What URL.createObjectURL returns for the generated zip: an opaque id chosen
      by the browser, standing for the archive the blob holds. */
  datatype ZipHandle = ZipHandle(id: nat, archive: Archive)

  class PdfReverseSaaS {
    var files: seq<SelectedFile>
    var loading: bool
    var zipUrl: Option<ZipHandle>

    /** A download link is never offered while a batch is running. */
    predicate Valid()
      reads this
    {
      zipUrl.Some? ==> !loading
    }

    /** The initial state: nothing selected, not loading, no archive. */
    constructor ()
      ensures Valid()
      ensures files == [] && !loading && zipUrl == None
    {
      files := [];
      loading := false;
      zipUrl := None;
    }

    /** The file input's change handler replaces the selection. */
    method SelectFiles(selected: seq<SelectedFile>)
      requires Valid()
      modifies this`files
      ensures Valid()
      ensures files == selected
    {
      files := selected;
    }

    /**
     * handleProcess. With nothing selected it returns at once and changes
     * nothing. Otherwise it sets `loading`, clears `zipUrl` and runs the batch:
     * on success `zipUrl` holds the archive under the id `urlId` and `loading`
     * is cleared; when a file fails to load the run stops there, leaving
     * `loading` set and `zipUrl` empty.
     */
    method HandleProcess(urlId: nat)
      requires Valid()
      modifies this`loading, this`zipUrl
      ensures Valid()
      ensures files == [] ==> loading == old(loading) && zipUrl == old(zipUrl)
      ensures files != [] && BatchResult(files).Success? ==>
                !loading && zipUrl == Some(ZipHandle(urlId, BatchResult(files).value))
      ensures files != [] && BatchResult(files).Failure? ==> loading && zipUrl == None
    {
      if |files| == 0 {
        return;
      }
      loading := true;
      zipUrl := None;

      var r := BuildArchive(files);
      if r.Failure? {
        return;
      }

      zipUrl := Some(ZipHandle(urlId, r.value));
      loading := false;
    }
  }
}
