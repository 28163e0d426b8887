/**
 * The session state of app.py (`st.session_state.libraries`) and the steps
 * of one pass: the refresh button, `upload_to_supabase`, the load of an
 * empty cache, and the split of the shown library into three row bands.
 */
module LibrarySession {
  import opened Wrappers
  import opened Names
  import opened Storage
  import opened Csv
  import opened LibraryCache

  /** A band holds ⌊n/3⌋ or ⌈n/3⌉ of the n rows. */
  predicate Balanced(size: int, n: nat) {
    size == n / 3 || size == (n + 2) / 3
  }

  /** Lines 81-90: where the three columns split `n` rows (`n // 3` and `2 * n // 3`). */
  function BandBounds(n: nat): (b: (nat, nat))
    ensures b.0 <= b.1 <= n
    ensures Balanced(b.0, n) && Balanced(b.1 - b.0, n) && Balanced(n - b.1, n)
    ensures b.0 <= b.1 - b.0 <= n - b.1
  {
    var q, r := n / 3, n % 3;
    assert n == 3 * q + r && 0 <= r < 3;
    assert (n + 2) / 3 == q + (r + 2) / 3;
    assert 2 * n / 3 == 2 * q + (2 * r) / 3;
    (n / 3, 2 * n / 3)
  }

  /**
   * The three `iloc` slices: contiguous, in order, together exactly the rows,
   * each of ⌊n/3⌋ or ⌈n/3⌉ rows with the larger bands last.
   */
  function Bands<T>(rows: seq<T>): (b: (seq<T>, seq<T>, seq<T>))
    ensures b.0 + b.1 + b.2 == rows
    ensures Balanced(|b.0|, |rows|) && Balanced(|b.1|, |rows|) && Balanced(|b.2|, |rows|)
    ensures |b.0| <= |b.1| <= |b.2|
  {
    var (i, j) := BandBounds(|rows|);
    assert rows[..i] + rows[i..j] + rows[j..] == rows;
    (rows[..i], rows[i..j], rows[j..])
  }

  /** Ten rows are shown as bands of 3, 3 and 4 rows. */
  lemma TenRows()
    ensures BandBounds(10) == (3, 6)
  {
  }

  /**
   * The next load reads back the table of an uploaded file, as long as it is
   * the last listed file of its library; this holds for a table of no rows
   * too, which the upload itself does not cache.
   */
  lemma ReloadAgreesWithUpload(file: UploadedFile, names: seq<string>, j: nat, store: map<string, Blob>, parse: Parser)
    requires file.name in store && store[file.name] == file.data
    requires !Gather(names, store, parse).failed
    requires j < |names| && names[j] == file.name && IsCsv(file.name)
    requires forall k :: j < k < |names| && IsCsv(names[k]) ==> LibraryName(names[k]) != LibraryName(file.name)
    ensures parse(file.data).Rows?
    ensures var g := Gather(names, store, parse);
      LibraryName(file.name) in g.libraries && g.libraries[LibraryName(file.name)] == parse(file.data).table
  {
    LastWriterWins(names, j, store, parse);
  }

  /**
   * An uploaded file that was stored but does not parse fails every later
   * load that lists it, and the files listed after it are not loaded.
   */
  lemma UnparsableUploadStopsReload(file: UploadedFile, names: seq<string>, j: nat, store: map<string, Blob>, parse: Parser)
    requires file.name in store && store[file.name] == file.data && parse(file.data).Malformed?
    requires j < |names| && names[j] == file.name && IsCsv(file.name)
    ensures Gather(names, store, parse).failed
    ensures Gather(names, store, parse) == Gather(names[..j + 1], store, parse)
  {
    UnparsableStopsLoad(names, j, store, parse);
  }

  /** The script's inputs to one pass: the refresh button, the uploader, and what the bucket answers. */
  datatype LibraryInteraction = LibraryInteraction(refreshPressed: bool, upload: Option<UploadedFile>, writeOk: bool, listing: Listing)

  class Session {
    var libraries: map<string, Table>
    var warnings: nat
    var errors: nat

    /** Lines 111-112: a fresh session has no libraries. */
    constructor ()
      ensures libraries == map[] && warnings == 0 && errors == 0
    {
      libraries := map[];
      warnings := 0;
      errors := 0;
    }

    /** Lines 61-62: the refresh button replaces all libraries by a fresh load. */
    method Refresh(listing: Listing, bucket: Bucket, parse: Parser)
      modifies this
      ensures libraries == Load(listing, bucket.objects, parse).libraries
      ensures errors == old(errors) + if Load(listing, bucket.objects, parse).failed then 1 else 0
      ensures warnings == old(warnings)
    {
      var loaded, failed := LoadLibraries(listing, bucket.objects, parse);
      libraries := loaded;
      if failed {
        errors := errors + 1;
      }
    }

    /**
     * Lines 27-58, `upload_to_supabase`: a collision with a listed ".csv"
     * file warns once and the upload goes on; the bytes are written before
     * they are parsed, so a file that does not parse, or parses to no rows,
     * is stored remotely but not cached. Only a non-empty table is cached,
     * under the library name, and no other library changes.
     */
    method Upload(file: UploadedFile, listing: Listing, writeOk: bool, bucket: Bucket, parse: Parser) returns (rerun: bool)
      modifies this, bucket
      ensures warnings == old(warnings) + if listing.Listed? && Collides(LibraryName(file.name), listing.names) then 1 else 0
      ensures bucket.objects == if listing.Listed? && writeOk then old(bucket.objects)[file.name := file.data] else old(bucket.objects)
      ensures rerun <==> listing.Listed? && writeOk && parse(file.data).Rows? && parse(file.data).table.rows > 0
      ensures rerun ==> libraries == old(libraries)[LibraryName(file.name) := parse(file.data).table]
      ensures !rerun ==> libraries == old(libraries)
      ensures errors == old(errors) + if rerun then 0 else 1
    {
      rerun := false;
      var libraryName := LibraryName(file.name);
      match listing {
        case ListFailed =>
          errors := errors + 1;
          return;
        case Listed(names) =>
          var existingNames := ExistingNames(names);
          if libraryName in existingNames {
            warnings := warnings + 1;
          }
      }
      if !writeOk {
        errors := errors + 1;
        return;
      }
      bucket.Upload(file.name, file.data);
      match parse(file.data) {
        case Malformed =>
          errors := errors + 1;
        case Rows(t) =>
          if t.rows == 0 {
            errors := errors + 1;
          } else {
            libraries := libraries[libraryName := t];
            rerun := true;
          }
      }
    }

    /** Lines 70-71: an empty cache is filled by a load. */
    method LoadIfEmpty(listing: Listing, bucket: Bucket, parse: Parser)
      modifies this
      ensures old(libraries) == map[] ==> libraries == Load(listing, bucket.objects, parse).libraries
      ensures old(libraries) == map[] ==> errors == old(errors) + if Load(listing, bucket.objects, parse).failed then 1 else 0
      ensures old(libraries) != map[] ==> libraries == old(libraries) && errors == old(errors)
      ensures warnings == old(warnings)
    {
      if libraries == map[] {
        Refresh(listing, bucket, parse);
      }
    }

    /**
     * Lines 61-71: one pass of the script. The refresh button and a cached
     * upload end the pass with a rerun; otherwise an empty cache is loaded.
     */
    method Pass(ev: LibraryInteraction, bucket: Bucket, parse: Parser) returns (rerun: bool)
      modifies this, bucket
      ensures rerun <==>
        || ev.refreshPressed
        || (ev.upload.Some? && ev.listing.Listed? && ev.writeOk
            && parse(ev.upload.value.data).Rows? && parse(ev.upload.value.data).table.rows > 0)
      // The refresh button: a fresh load, nothing written.
      ensures ev.refreshPressed ==>
        && bucket.objects == old(bucket.objects)
        && libraries == Load(ev.listing, bucket.objects, parse).libraries
        && errors == old(errors) + (if Load(ev.listing, bucket.objects, parse).failed then 1 else 0)
        && warnings == old(warnings)
      // Otherwise an upload, if any, warns on a collision and is written when the listing and the write succeed.
      ensures !ev.refreshPressed ==>
        && bucket.objects == (if ev.upload.Some? && ev.listing.Listed? && ev.writeOk
                              then old(bucket.objects)[ev.upload.value.name := ev.upload.value.data]
                              else old(bucket.objects))
        && warnings == old(warnings) + (if ev.upload.Some? && ev.listing.Listed?
                                           && Collides(LibraryName(ev.upload.value.name), ev.listing.names) then 1 else 0)
      // A cached upload: its library is set, nothing else changes.
      ensures rerun && !ev.refreshPressed ==>
        && libraries == old(libraries)[LibraryName(ev.upload.value.name) := parse(ev.upload.value.data).table]
        && errors == old(errors)
      // Any other pass: a failed upload reports one error, then an empty cache is loaded.
      ensures !rerun ==>
        && libraries == (if old(libraries) == map[] then Load(ev.listing, bucket.objects, parse).libraries else old(libraries))
        && errors == old(errors) + (if ev.upload.Some? then 1 else 0)
                                 + (if old(libraries) == map[] && Load(ev.listing, bucket.objects, parse).failed then 1 else 0)
    {
      if ev.refreshPressed {
        Refresh(ev.listing, bucket, parse);
        return true;
      }
      rerun := false;
      if ev.upload.Some? {
        rerun := Upload(ev.upload.value, ev.listing, ev.writeOk, bucket, parse);
        if rerun {
          return;
        }
      }
      LoadIfEmpty(ev.listing, bucket, parse);
    }
  }
}
