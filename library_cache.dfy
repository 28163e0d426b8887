/**
 * `load_libraries_from_supabase` of app.py and the collision test of
 * `upload_to_supabase`: every listed ".csv" file is downloaded and parsed and
 * cached under its library name (every ".csv" removed from the file name);
 * a later file with the same library name overwrites an earlier one. The
 * first failure ends the loop and the libraries loaded so far are returned.
 */
module LibraryCache {
  import opened Wrappers
  import opened Names
  import opened Storage
  import opened Csv

  /** The loaded libraries, and whether an exception ended the load. */
  datatype LoadedLibraries = LoadedLibraries(libraries: map<string, Table>, failed: bool)

  /** A listed name the loader reads (`file_name and file_name.endswith('.csv')`). */
  predicate IsCsv(name: string)
    ensures IsCsv(name) <==> EndsWith(name, ".csv")
  {
    name != "" && EndsWith(name, ".csv")
  }

  /**
   * A listed name the loop gets past without an exception: other names are
   * never downloaded, a ".csv" must exist and parse.
   */
  predicate Fetchable(name: string, store: map<string, Blob>, parse: Parser)
    ensures !IsCsv(name) ==> Fetchable(name, store, parse)
    ensures IsCsv(name) && name !in store ==> !Fetchable(name, store, parse)
  {
    !IsCsv(name) || (name in store && parse(store[name]).Rows?)
  }

  /** One iteration of the loop; None when it raises. */
  function Visit(m: map<string, Table>, name: string, store: map<string, Blob>, parse: Parser): (r: Option<map<string, Table>>)
    ensures r.Some? <==> Fetchable(name, store, parse)
    ensures r.Some? && IsCsv(name) ==> r.value == m[LibraryName(name) := parse(store[name]).table]
    ensures !IsCsv(name) ==> r == Some(m)
  {
    if !IsCsv(name) then Some(m)
    else
      match Download(store, name)
      case None => None
      case Some(data) =>
        match parse(data)
        case Malformed => None
        case Rows(t) => Some(m[LibraryName(name) := t])
  }

  /**
   * The loop over `names`, as the effect of its iterations in order. Whether
   * or not it fails, every library it holds is named after a listed ".csv".
   */
  function Gather(names: seq<string>, store: map<string, Blob>, parse: Parser): (g: LoadedLibraries)
    ensures forall lib :: lib in g.libraries ==> lib in ExistingNames(names)
    decreases |names|
  {
    if names == [] then LoadedLibraries(map[], false)
    else
      var g := Gather(names[..|names| - 1], store, parse);
      if g.failed then g
      else
        match Visit(g.libraries, names[|names| - 1], store, parse)
        case None => LoadedLibraries(g.libraries, true)
        case Some(m) => LoadedLibraries(m, false)
  }

  /** What a load returns, given what the list call answers. */
  function Load(listing: Listing, store: map<string, Blob>, parse: Parser): (g: LoadedLibraries)
    ensures listing.ListFailed? ==> g.failed && g.libraries == map[]
    ensures forall lib :: lib in g.libraries ==> listing.Listed? && lib in ExistingNames(listing.names)
  {
    match listing
    case ListFailed => LoadedLibraries(map[], true)
    case Listed(names) => Gather(names, store, parse)
  }

  /** Once an iteration has raised, the later names are never visited. */
  lemma {:induction false} FailureStops(names: seq<string>, i: nat, store: map<string, Blob>, parse: Parser)
    requires i <= |names| && Gather(names[..i], store, parse).failed
    ensures Gather(names, store, parse) == Gather(names[..i], store, parse)
    decreases |names| - i
  {
    if i < |names| {
      var init := names[..|names| - 1];
      assert init[..i] == names[..i];
      FailureStops(init, i, store, parse);
    } else {
      assert names[..i] == names;
    }
  }

  /** The loader: a loop over the listing that stops at the first exception. */
  method LoadLibraries(listing: Listing, store: map<string, Blob>, parse: Parser) returns (libraries: map<string, Table>, failed: bool)
    ensures LoadedLibraries(libraries, failed) == Load(listing, store, parse)
  {
    libraries := map[];
    failed := false;
    match listing {
      case ListFailed =>
        failed := true;
      case Listed(names) =>
        var i := 0;
        while i < |names| && !failed
          invariant 0 <= i <= |names|
          invariant LoadedLibraries(libraries, failed) == Gather(names[..i], store, parse)
        {
          var fileName := names[i];
          assert names[..i + 1][..i] == names[..i];
          if fileName != "" && EndsWith(fileName, ".csv") {
            var libraryName := LibraryName(fileName);
            if fileName !in store {
              failed := true;
            } else {
              match parse(store[fileName]) {
                case Malformed =>
                  failed := true;
                case Rows(t) =>
                  libraries := libraries[libraryName := t];
              }
            }
          }
          i := i + 1;
        }
        if failed {
          FailureStops(names, i, store, parse);
        } else {
          assert names[..i] == names;
        }
    }
  }

  /** A load succeeds exactly when every listed ".csv" file can be downloaded and parsed. */
  lemma {:induction false} GatherSucceedsIff(names: seq<string>, store: map<string, Blob>, parse: Parser)
    ensures !Gather(names, store, parse).failed <==> forall i :: 0 <= i < |names| ==> Fetchable(names[i], store, parse)
    decreases |names|
  {
    if names != [] {
      var init := names[..|names| - 1];
      GatherSucceedsIff(init, store, parse);
      assert forall i :: 0 <= i < |init| ==> init[i] == names[i];
    }
  }

  /** Line 36: the library names of the listed ".csv" files, in listing order. */
  function ExistingNames(names: seq<string>): (r: seq<string>)
    ensures |r| <= |names|
    decreases |names|
  {
    if names == [] then []
    else
      var last := names[|names| - 1];
      ExistingNames(names[..|names| - 1]) + if EndsWith(last, ".csv") then [LibraryName(last)] else []
  }

  /** The derived names, stated on the listing itself. */
  lemma {:induction false} ExistingNamesIff(libraryName: string, names: seq<string>)
    ensures libraryName in ExistingNames(names) <==>
      exists i :: 0 <= i < |names| && EndsWith(names[i], ".csv") && LibraryName(names[i]) == libraryName
    decreases |names|
  {
    if names != [] {
      var init := names[..|names| - 1];
      ExistingNamesIff(libraryName, init);
      assert forall i :: 0 <= i < |init| ==> init[i] == names[i];
    }
  }

  /**
   * Line 37: an upload collides exactly when some listed ".csv" file has its
   * library name.
   */
  predicate Collides(libraryName: string, names: seq<string>)
    ensures Collides(libraryName, names) <==>
      exists i :: 0 <= i < |names| && EndsWith(names[i], ".csv") && LibraryName(names[i]) == libraryName
  {
    ExistingNamesIff(libraryName, names);
    libraryName in ExistingNames(names)
  }

  /** After a load without failure, the cached libraries are exactly those the collision test knows. */
  lemma {:induction false} GatherKeysAreExistingNames(names: seq<string>, store: map<string, Blob>, parse: Parser)
    requires !Gather(names, store, parse).failed
    ensures forall lib :: lib in Gather(names, store, parse).libraries <==> lib in ExistingNames(names)
    decreases |names|
  {
    if names != [] {
      GatherKeysAreExistingNames(names[..|names| - 1], store, parse);
    }
  }

  /**
   * Last writer wins: after a load without failure, a library holds the table
   * of the last listed ".csv" file deriving its name.
   */
  lemma {:induction false} LastWriterWins(names: seq<string>, j: nat, store: map<string, Blob>, parse: Parser)
    requires !Gather(names, store, parse).failed
    requires j < |names| && IsCsv(names[j])
    requires forall k :: j < k < |names| && IsCsv(names[k]) ==> LibraryName(names[k]) != LibraryName(names[j])
    ensures names[j] in store && parse(store[names[j]]).Rows?
    ensures var g := Gather(names, store, parse);
      LibraryName(names[j]) in g.libraries && g.libraries[LibraryName(names[j])] == parse(store[names[j]]).table
    decreases |names|
  {
    GatherSucceedsIff(names, store, parse);
    assert Fetchable(names[j], store, parse);
    var init := names[..|names| - 1];
    if j < |names| - 1 {
      assert init[j] == names[j];
      assert forall k :: j < k < |init| ==> init[k] == names[k];
      LastWriterWins(init, j, store, parse);
    }
  }

  /** `names[j]` is the first listed name the loop cannot get past. */
  predicate FirstFailureAt(names: seq<string>, j: nat, store: map<string, Blob>, parse: Parser) {
    && j < |names|
    && !Fetchable(names[j], store, parse)
    && forall i :: 0 <= i < j ==> Fetchable(names[i], store, parse)
  }

  /**
   * A listed ".csv" whose stored bytes do not parse fails every load that
   * reaches it, and no file listed after it is loaded.
   */
  lemma UnparsableStopsLoad(names: seq<string>, j: nat, store: map<string, Blob>, parse: Parser)
    requires j < |names| && IsCsv(names[j]) && names[j] in store && parse(store[names[j]]).Malformed?
    ensures Gather(names, store, parse).failed
    ensures Gather(names, store, parse) == Gather(names[..j + 1], store, parse)
  {
    var p := names[..j + 1];
    assert p[..|p| - 1] == names[..j];
    assert p[|p| - 1] == names[j];
    assert Gather(p, store, parse).failed;
    FailureStops(names, j + 1, store, parse);
  }

  /** A load ended by a failure returns what the iterations before the first failing file loaded. */
  lemma {:induction false} GatherFailedKeepsPrefix(names: seq<string>, store: map<string, Blob>, parse: Parser)
    requires Gather(names, store, parse).failed
    ensures exists j: nat :: (FirstFailureAt(names, j, store, parse)
      && Gather(names, store, parse).libraries == Gather(names[..j], store, parse).libraries)
    decreases |names|
  {
    var init := names[..|names| - 1];
    var g := Gather(init, store, parse);
    if g.failed {
      GatherFailedKeepsPrefix(init, store, parse);
      var j: nat :| FirstFailureAt(init, j, store, parse) && g.libraries == Gather(init[..j], store, parse).libraries;
      assert init[..j] == names[..j];
      assert forall i :: 0 <= i <= j ==> init[i] == names[i];
      assert FirstFailureAt(names, j, store, parse);
    } else {
      var j := |names| - 1;
      GatherSucceedsIff(init, store, parse);
      assert init == names[..j];
      assert forall i :: 0 <= i < j ==> init[i] == names[i];
      assert FirstFailureAt(names, j, store, parse);
    }
  }
}
