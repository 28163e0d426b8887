/**
 * `load_files_from_supabase` of main.py: list the bucket, download every
 * named object, keep ".csv" files as parsed frames and ".txt" files as text,
 * keyed by the full file name. The first failure (listing, download or CSV
 * parse) ends the loop; the entries gathered so far are returned and one
 * error is reported.
 */
module FileCache {
  import opened Wrappers
  import opened Names
  import opened Storage
  import opened Csv
  import opened Dicts

  /** A cached file: a CSV as a frame, a TXT as its bytes (UTF-8 decoding is not modelled). */
  datatype Entry = Frame(table: Table) | Text(content: Blob)

  /** The loaded dict, and whether an exception ended the load. */
  datatype LoadedFiles = LoadedFiles(files: Dict<Entry>, failed: bool)

  /** A name the loader keeps; never the empty name, so the `if file_name` guard adds nothing for it. */
  predicate Recognised(name: string)
    ensures Recognised(name) ==> |name| >= 4
  {
    EndsWith(name, ".csv") || EndsWith(name, ".txt")
  }

  /** The entry kept for a recognised name with contents `data`; None when a .csv does not parse. */
  function Decoded(name: string, data: Blob, parse: Parser): (e: Option<Entry>)
    requires Recognised(name)
    ensures EndsWith(name, ".csv") ==> (e.Some? <==> parse(data).Rows?)
    ensures e.Some? && EndsWith(name, ".csv") ==> e.value == Frame(parse(data).table)
    ensures !EndsWith(name, ".csv") ==> e == Some(Text(data))
  {
    if EndsWith(name, ".csv") then
      match parse(data)
      case Malformed => None
      case Rows(t) => Some(Frame(t))
    else Some(Text(data))
  }

  /**
   * A listed name the loop gets past without an exception. Every non-empty
   * name is downloaded before its extension is looked at, so a file other
   * than a CSV only has to exist, whatever its extension.
   */
  predicate Fetchable(name: string, store: map<string, Blob>, parse: Parser)
    ensures name == "" ==> Fetchable(name, store, parse)
    ensures name != "" && !EndsWith(name, ".csv") ==> (Fetchable(name, store, parse) <==> name in store)
  {
    name == "" || (name in store && (EndsWith(name, ".csv") ==> parse(store[name]).Rows?))
  }

  /** One iteration of the loop over the listing; None when it raises. */
  function Visit(d: Dict<Entry>, name: string, store: map<string, Blob>, parse: Parser): (r: Option<Dict<Entry>>)
    requires d.Valid()
    ensures r.Some? <==> Fetchable(name, store, parse)
    ensures r.Some? ==> r.value.Valid()
  {
    if name == "" then Some(d)
    else
      match Download(store, name)
      case None => None
      case Some(data) =>
        if !Recognised(name) then Some(d)
        else
          match Decoded(name, data, parse)
          case None => None
          case Some(e) => Some(Put(d, name, e))
  }

  /** The loop over `names`, as the effect of its iterations in order. */
  function Gather(names: seq<string>, store: map<string, Blob>, parse: Parser): (g: LoadedFiles)
    ensures g.files.Valid()
    decreases |names|
  {
    if names == [] then LoadedFiles(Empty(), false)
    else
      var g := Gather(names[..|names| - 1], store, parse);
      if g.failed then g
      else
        match Visit(g.files, names[|names| - 1], store, parse)
        case None => LoadedFiles(g.files, true)
        case Some(d) => LoadedFiles(d, false)
  }

  /** What a load returns, given what the list call answers. */
  function Load(listing: Listing, store: map<string, Blob>, parse: Parser): (g: LoadedFiles)
    ensures g.files.Valid()
  {
    match listing
    case ListFailed => LoadedFiles(Empty(), true)
    case Listed(names) => Gather(names, store, parse)
  }

  /** Once an iteration has raised, the later names are never visited. */
  lemma {:induction false} FailureStops(names: seq<string>, i: nat, store: map<string, Blob>, parse: Parser)
    requires i <= |names| && Gather(names[..i], store, parse).failed
    ensures Gather(names, store, parse) == Gather(names[..i], store, parse)
    decreases |names| - i
  {
    if i < |names| {
      var init := names[..|names| - 1];
      assert init[..i] == names[..i];
      FailureStops(init, i, store, parse);
    } else {
      assert names[..i] == names;
    }
  }

  /** The loader: a loop over the listing that stops at the first exception. */
  method LoadFiles(listing: Listing, store: map<string, Blob>, parse: Parser) returns (files: Dict<Entry>, failed: bool)
    ensures files.Valid()
    ensures LoadedFiles(files, failed) == Load(listing, store, parse)
  {
    files := Empty();
    failed := false;
    match listing {
      case ListFailed =>
        failed := true;
      case Listed(names) =>
        var i := 0;
        while i < |names| && !failed
          invariant 0 <= i <= |names|
          invariant files.Valid()
          invariant LoadedFiles(files, failed) == Gather(names[..i], store, parse)
        {
          var name := names[i];
          assert names[..i + 1][..i] == names[..i];
          if name != "" {
            if name !in store {
              failed := true;
            } else {
              var data := store[name];
              if EndsWith(name, ".csv") {
                match parse(data) {
                  case Malformed =>
                    failed := true;
                  case Rows(t) =>
                    files := Put(files, name, Frame(t));
                }
              } else if EndsWith(name, ".txt") {
                files := Put(files, name, Text(data));
              }
            }
          }
          i := i + 1;
        }
        if failed {
          FailureStops(names, i, store, parse);
        } else {
          assert names[..i] == names;
        }
    }
  }

  /** A load succeeds exactly when every listed name can be fetched (and, for a .csv, parsed). */
  lemma {:induction false} GatherSucceedsIff(names: seq<string>, store: map<string, Blob>, parse: Parser)
    ensures !Gather(names, store, parse).failed <==> forall i :: 0 <= i < |names| ==> Fetchable(names[i], store, parse)
    decreases |names|
  {
    if names != [] {
      var init := names[..|names| - 1];
      GatherSucceedsIff(init, store, parse);
      assert forall i :: 0 <= i < |init| ==> init[i] == names[i];
    }
  }

  /**
   * After a load without failure, the keys are exactly the listed recognised
   * names, and each holds what its stored bytes decode to.
   */
  lemma {:induction false} GatherKeepsRecognised(names: seq<string>, store: map<string, Blob>, parse: Parser)
    requires !Gather(names, store, parse).failed
    ensures var g := Gather(names, store, parse);
      forall k :: k in g.files.values <==> k in names && Recognised(k)
    ensures var g := Gather(names, store, parse);
      forall k :: k in g.files.values ==> k in store && Recognised(k) && Decoded(k, store[k], parse) == Some(g.files.values[k])
    decreases |names|
  {
    if names != [] {
      var init := names[..|names| - 1];
      var last := names[|names| - 1];
      GatherKeepsRecognised(init, store, parse);
      assert names == init + [last];
      assert forall k :: k in names <==> k in init || k == last;
    }
  }

  /** `names[j]` is the first listed name the loop cannot get past. */
  predicate FirstFailureAt(names: seq<string>, j: nat, store: map<string, Blob>, parse: Parser) {
    && j < |names|
    && !Fetchable(names[j], store, parse)
    && forall i :: 0 <= i < j ==> Fetchable(names[i], store, parse)
  }

  /**
   * A load ended by a failure returns what the iterations before the first
   * failing name gathered: every earlier name was fetched, that one was not.
   */
  lemma {:induction false} GatherFailedKeepsPrefix(names: seq<string>, store: map<string, Blob>, parse: Parser)
    requires Gather(names, store, parse).failed
    ensures exists j: nat :: (FirstFailureAt(names, j, store, parse)
      && Gather(names, store, parse).files == Gather(names[..j], store, parse).files)
    decreases |names|
  {
    var init := names[..|names| - 1];
    var g := Gather(init, store, parse);
    if g.failed {
      GatherFailedKeepsPrefix(init, store, parse);
      var j: nat :| FirstFailureAt(init, j, store, parse) && g.files == Gather(init[..j], store, parse).files;
      assert init[..j] == names[..j];
      assert forall i :: 0 <= i <= j ==> init[i] == names[i];
      assert FirstFailureAt(names, j, store, parse);
    } else {
      var j := |names| - 1;
      GatherSucceedsIff(init, store, parse);
      assert init == names[..j];
      assert forall i :: 0 <= i < j ==> init[i] == names[i];
      assert FirstFailureAt(names, j, store, parse);
    }
  }

  /**
   * When the listing names exactly the stored objects and all of them load,
   * the cache mirrors the store: one entry per recognised object, decoded
   * from its bytes, whatever the listing order.
   */
  lemma MirrorsStore(names: seq<string>, store: map<string, Blob>, parse: Parser)
    requires forall k :: k in names <==> k in store
    requires forall k :: k in store ==> Fetchable(k, store, parse)
    ensures var g := Gather(names, store, parse);
      && !g.failed
      && (forall k :: k in g.files.values <==> k in store && Recognised(k))
      && (forall k :: k in g.files.values ==> Decoded(k, store[k], parse) == Some(g.files.values[k]))
  {
    GatherSucceedsIff(names, store, parse);
    GatherKeepsRecognised(names, store, parse);
  }
}
