/**
 * The remote object store (a Supabase storage bucket): objects are byte blobs
 * keyed by file name, and uploading is create-or-overwrite. The answer of the
 * store's list call is an input to the operations that call it, because the
 * client is code this model cannot see.
 */
module Storage {
  import opened Wrappers

  newtype byte = x: int | 0 <= x < 256

  type Blob = seq<byte>

  /** What the bucket's list call answers: a transport error, or the listed file names in order. */
  datatype Listing = ListFailed | Listed(names: seq<string>)

  /** A file handed over by a Streamlit file uploader: its name and the bytes `read()` returns. */
  datatype UploadedFile = UploadedFile(name: string, data: Blob)

  /** `download(name)`: the stored bytes, or a failure when nothing is stored under that name. */
  function Download(store: map<string, Blob>, name: string): (r: Option<Blob>)
    ensures r.Some? <==> name in store
    ensures r.Some? ==> r.value == store[name]
  {
    if name in store then Some(store[name]) else None
  }

  class Bucket {
    var objects: map<string, Blob>

    constructor (objects: map<string, Blob>)
      ensures this.objects == objects
    {
      this.objects := objects;
    }

    /** `upload(name, data)`: stores `data` under `name`, replacing what was there; no other object changes. */
    method Upload(name: string, data: Blob)
      modifies this
      ensures objects == old(objects)[name := data]
      ensures forall other :: other != name ==> Download(objects, other) == Download(old(objects), other)
    {
      objects := objects[name := data];
    }
  }
}
