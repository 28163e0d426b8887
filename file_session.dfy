/**
 * The session state of main.py (`st.session_state`) and the steps one pass
 * of the script takes on it: the refresh button, the CSV upload, admission
 * of an image into the pending slot, the approval-gated OCR, the load of an
 * empty cache, and the normalisation of the selected file.
 */
module FileSession {
  import opened Wrappers
  import opened Names
  import opened Storage
  import opened Csv
  import opened Dicts
  import opened FileCache
  import opened Ocr

  /** `available_files.index(x)`: the first position holding `x`. */
  function IndexOf(xs: seq<string>, x: string): (i: nat)
    requires x in xs
    ensures i < |xs| && xs[i] == x && x !in xs[..i]
  {
    if xs[0] == x then 0
    else
      var i := IndexOf(xs[1..], x);
      assert xs[..i + 1] == [xs[0]] + xs[1..][..i];
      i + 1
  }

  /** Lines 163-167: the index the file menu opens at. */
  function DefaultIndex(available: seq<string>, selected: Option<string>): (i: nat)
    ensures available != [] ==> i < |available|
    ensures selected.Some? && selected.value in available ==> available[i] == selected.value && selected.value !in available[..i]
    ensures !(selected.Some? && selected.value in available) ==> i == 0
  {
    if selected.Some? && selected.value in available then IndexOf(available, selected.value) else 0
  }

  /** Lines 163-168: the selected file after normalisation. */
  function Normalised(available: seq<string>, selected: Option<string>): (r: Option<string>)
    ensures r.None? <==> available == []
    ensures r.Some? ==> r.value in available
    ensures selected.Some? && selected.value in available ==> r == selected
    ensures !(selected.Some? && selected.value in available) && available != [] ==> r == Some(available[0])
  {
    if selected.Some? && selected.value in available then selected
    else if available != [] then Some(available[0])
    else None
  }

  /** The menu opens on the normalised selection. */
  lemma DefaultIndexShowsSelection(available: seq<string>, selected: Option<string>)
    requires available != []
    ensures Normalised(available, selected) == Some(available[DefaultIndex(available, selected)])
  {
  }

  /** A request completes when the reply carries a text and the transcript upload goes through. */
  predicate Completed(reply: OcrReply, writeOk: bool)
    ensures Completed(reply, writeOk) ==> writeOk && reply.Reply? && reply.erroredOnProcessing != Some(true)
    ensures Completed(reply, writeOk) ==> reply.parsedText.Some?
  {
    ExtractText(reply).Some? && writeOk
  }

  /**
   * After a reload that did not fail and whose listing names the transcript,
   * the transcript is cached as text under its name, holding the stored bytes.
   */
  lemma TranscriptCachedAsText(imageName: string, names: seq<string>, store: map<string, Blob>, parse: Parser)
    requires !Gather(names, store, parse).failed
    requires TxtName(imageName) in names
    ensures var g := Gather(names, store, parse); var t := TxtName(imageName);
      t in g.files.values && t in store && g.files.values[t] == Text(store[t])
  {
    var t := TxtName(imageName);
    GatherKeepsRecognised(names, store, parse);
    assert t[|t| - 1] == 't';
    assert !EndsWith(t, ".csv");
  }

  /** The script's inputs to one pass: button presses, uploader contents, the OCR key, and what the services answer. */
  datatype Interaction = Interaction(
    refreshPressed: bool,
    csv: Option<UploadedFile>,
    image: Option<Image>,
    ocrKey: string,
    approvePressed: bool,
    reply: OcrReply,
    writeOk: bool,
    listing: Listing)

  class Session {
    var files: Dict<Entry>
    var approved: bool
    var uploadedImage: Option<Image>
    var selectedFile: Option<string>
    var csvUploaderKey: nat
    var imageUploaderKey: nat
    var warnings: nat
    var errors: nat

    ghost predicate Valid()
      reads this
    {
      files.Valid()
    }

    /** The selected file names a cached file, or nothing when the cache is empty. */
    predicate SelectionValid()
      reads this
    {
      match selectedFile
      case None => files.keys == []
      case Some(f) => f in files.keys
    }

    /** The pending-image slot and the approval flag. */
    function SlotState(): Ocr.Slot
      reads this
    {
      Ocr.Slot(uploadedImage, approved)
    }

    /** Lines 21-28: a fresh session. */
    constructor ()
      ensures Valid()
      ensures files == Empty() && !approved && uploadedImage == None && selectedFile == None
      ensures csvUploaderKey == 0 && imageUploaderKey == 0 && warnings == 0 && errors == 0
    {
      files := Empty();
      approved := false;
      uploadedImage := None;
      selectedFile := None;
      csvUploaderKey := 0;
      imageUploaderKey := 0;
      warnings := 0;
      errors := 0;
    }

    /** Lines 133-134: the refresh button replaces the whole cache by a fresh load. */
    method Refresh(listing: Listing, bucket: Bucket, parse: Parser)
      modifies this
      ensures Valid()
      ensures files == Load(listing, bucket.objects, parse).files
      ensures errors == old(errors) + if Load(listing, bucket.objects, parse).failed then 1 else 0
      ensures SlotState() == old(SlotState()) && selectedFile == old(selectedFile) && warnings == old(warnings)
      ensures csvUploaderKey == old(csvUploaderKey) && imageUploaderKey == old(imageUploaderKey)
    {
      var loaded, failed := LoadFiles(listing, bucket.objects, parse);
      files := loaded;
      if failed {
        errors := errors + 1;
      }
    }

    /**
     * Lines 55-68, `upload_csv`: the bytes are written first; only a parsed
     * file enters the cache, under its full name, and advances the uploader key.
     */
    method UploadCsv(file: UploadedFile, writeOk: bool, bucket: Bucket, parse: Parser) returns (rerun: bool)
      requires Valid()
      modifies this, bucket
      ensures Valid()
      ensures bucket.objects == if writeOk then old(bucket.objects)[file.name := file.data] else old(bucket.objects)
      ensures rerun <==> writeOk && parse(file.data).Rows?
      ensures rerun ==> files == Put(old(files), file.name, Frame(parse(file.data).table))
      ensures rerun ==> files.values == old(files.values)[file.name := Frame(parse(file.data).table)]
      ensures !rerun ==> files == old(files)
      ensures csvUploaderKey == old(csvUploaderKey) + if rerun then 1 else 0
      ensures errors == old(errors) + if rerun then 0 else 1
      ensures SlotState() == old(SlotState()) && selectedFile == old(selectedFile) && warnings == old(warnings)
      ensures imageUploaderKey == old(imageUploaderKey)
    {
      rerun := false;
      if !writeOk {
        errors := errors + 1;
        return;
      }
      bucket.Upload(file.name, file.data);
      match parse(file.data) {
        case Malformed =>
          errors := errors + 1;
        case Rows(t) =>
          files := Put(files, file.name, Frame(t));
          csvUploaderKey := csvUploaderKey + 1;
          rerun := true;
      }
    }

    /** Lines 150-152: an uploaded image fills the slot only when it is empty, and clears the approval. */
    method AdmitImage(offered: Option<Image>)
      modifies this
      ensures SlotState() == Admit(old(SlotState()), offered)
      ensures files == old(files) && selectedFile == old(selectedFile)
      ensures csvUploaderKey == old(csvUploaderKey) && imageUploaderKey == old(imageUploaderKey)
      ensures warnings == old(warnings) && errors == old(errors)
    {
      if offered.Some? && uploadedImage.None? {
        uploadedImage := offered;
        approved := false;
      }
    }

    /**
     * Lines 83-129, `process_uploaded_image`: with an image pending and an
     * OCR key, and once approved, the image is sent to the OCR service; a
     * text reply is stored as the transcript, the cache is reloaded, the
     * transcript selected and the slot emptied. Any failure reports one
     * error and keeps the image (and the approval) for the next pass.
     */
    method ProcessImage(ocrKey: string, pressed: bool, reply: OcrReply, writeOk: bool, listing: Listing,
                        bucket: Bucket, parse: Parser) returns (requested: bool)
      requires Valid()
      modifies this, bucket
      ensures Valid()
      ensures requested == Requests(old(SlotState()), ocrKey != "", pressed)
      ensures SlotState() == Process(old(SlotState()), ocrKey != "", pressed, requested && Completed(reply, writeOk))
      ensures requested && Completed(reply, writeOk) ==>
        && bucket.objects == old(bucket.objects)[TxtName(old(uploadedImage).value.name) := ExtractText(reply).value]
        && files == Load(listing, bucket.objects, parse).files
        && selectedFile == Some(TxtName(old(uploadedImage).value.name))
        && imageUploaderKey == old(imageUploaderKey) + 1
        && errors == old(errors) + if Load(listing, bucket.objects, parse).failed then 1 else 0
      ensures !(requested && Completed(reply, writeOk)) ==>
        && bucket.objects == old(bucket.objects)
        && files == old(files) && selectedFile == old(selectedFile) && imageUploaderKey == old(imageUploaderKey)
        && errors == old(errors) + if requested then 1 else 0
      ensures warnings == old(warnings) + if old(uploadedImage).Some? && ocrKey == "" then 1 else 0
      ensures csvUploaderKey == old(csvUploaderKey)
    {
      requested := false;
      if uploadedImage.None? {
        return;
      }
      var image := uploadedImage.value;
      if ocrKey == "" {
        warnings := warnings + 1;
        return;
      }
      if !approved {
        if pressed {
          approved := true;
        } else {
          return;
        }
      }
      requested := true;
      var text := ExtractText(reply);
      if text.None? {
        errors := errors + 1;
        return;
      }
      var txtName := TxtName(image.name);
      if !writeOk {
        errors := errors + 1;
        return;
      }
      bucket.Upload(txtName, text.value);
      var loaded, failed := LoadFiles(listing, bucket.objects, parse);
      if failed {
        errors := errors + 1;
      }
      files := loaded;
      selectedFile := Some(txtName);
      uploadedImage := None;
      imageUploaderKey := imageUploaderKey + 1;
    }

    /** Lines 155-156: an empty cache is filled by a load. */
    method LoadIfEmpty(listing: Listing, bucket: Bucket, parse: Parser)
      requires Valid()
      modifies this
      ensures Valid()
      ensures old(files.keys) == [] ==> files == Load(listing, bucket.objects, parse).files
      ensures old(files.keys) == [] ==> errors == old(errors) + if Load(listing, bucket.objects, parse).failed then 1 else 0
      ensures old(files.keys) != [] ==> files == old(files) && errors == old(errors)
      ensures SlotState() == old(SlotState()) && selectedFile == old(selectedFile) && warnings == old(warnings)
      ensures csvUploaderKey == old(csvUploaderKey) && imageUploaderKey == old(imageUploaderKey)
    {
      if files.keys == [] {
        Refresh(listing, bucket, parse);
      }
    }

    /**
     * Lines 160-168: a selection that is not a cached file falls back to the
     * first cached file, or to nothing; the menu's index points at the selection.
     */
    method NormaliseSelection() returns (defaultIndex: nat)
      requires Valid()
      modifies this
      ensures Valid() && SelectionValid()
      ensures selectedFile == Normalised(files.keys, old(selectedFile))
      ensures defaultIndex == DefaultIndex(files.keys, old(selectedFile))
      ensures files.keys != [] ==> defaultIndex < |files.keys| && selectedFile == Some(files.keys[defaultIndex])
      ensures files == old(files) && SlotState() == old(SlotState()) && warnings == old(warnings) && errors == old(errors)
      ensures csvUploaderKey == old(csvUploaderKey) && imageUploaderKey == old(imageUploaderKey)
    {
      var available := files.keys;
      var default := selectedFile;
      if default.Some? && default.value in available {
        defaultIndex := IndexOf(available, default.value);
      } else {
        defaultIndex := 0;
        selectedFile := if available != [] then Some(available[0]) else None;
      }
    }

    /**
     * Lines 133-168: one pass of the script. The refresh button and a parsed
     * CSV upload end the pass with a rerun; otherwise the image is admitted
     * and processed, an empty cache loaded and the selection normalised. The
     * slot follows one step of the OCR state machine.
     */
    method Pass(ev: Interaction, bucket: Bucket, parse: Parser) returns (rerun: bool, requested: bool)
      requires Valid()
      modifies this, bucket
      ensures Valid()
      ensures rerun <==> ev.refreshPressed || (ev.csv.Some? && ev.writeOk && parse(ev.csv.value.data).Rows?)
      ensures rerun ==> !requested && SlotState() == old(SlotState()) && warnings == old(warnings)
      ensures rerun ==> selectedFile == old(selectedFile) && imageUploaderKey == old(imageUploaderKey)
      // The refresh button: a fresh load, nothing written.
      ensures ev.refreshPressed ==>
        && bucket.objects == old(bucket.objects)
        && files == Load(ev.listing, bucket.objects, parse).files
        && errors == old(errors) + (if Load(ev.listing, bucket.objects, parse).failed then 1 else 0)
        && csvUploaderKey == old(csvUploaderKey)
      // A CSV upload that is stored and parsed: cached under its full name, uploader reset.
      ensures rerun && !ev.refreshPressed ==>
        && bucket.objects == old(bucket.objects)[ev.csv.value.name := ev.csv.value.data]
        && files == Put(old(files), ev.csv.value.name, Frame(parse(ev.csv.value.data).table))
        && csvUploaderKey == old(csvUploaderKey) + 1
        && errors == old(errors)
      // Any other pass: a failed upload, then one step of the OCR machine, the load of an empty cache, the selection.
      ensures !rerun ==>
        (SlotState(), requested) == Step(old(SlotState()), PassInput(ev.image, ev.ocrKey != "", ev.approvePressed, Completed(ev.reply, ev.writeOk)))
      ensures !rerun ==> SelectionValid()
      ensures !rerun ==>
        var stored := if ev.csv.Some? && ev.writeOk then old(bucket.objects)[ev.csv.value.name := ev.csv.value.data]
                      else old(bucket.objects);
        var admitted := Admit(old(SlotState()), ev.image);
        var completed := Requests(admitted, ev.ocrKey != "", ev.approvePressed) && Completed(ev.reply, ev.writeOk);
        var reloaded := Load(ev.listing, bucket.objects, parse);
        var afterOcr := if completed then reloaded.files else old(files);
        && bucket.objects == (if completed then stored[TxtName(admitted.pending.value.name) := ExtractText(ev.reply).value] else stored)
        && files == (if afterOcr.keys == [] then reloaded.files else afterOcr)
        && selectedFile == Normalised(files.keys, if completed then Some(TxtName(admitted.pending.value.name)) else old(selectedFile))
        && csvUploaderKey == old(csvUploaderKey)
        && imageUploaderKey == old(imageUploaderKey) + (if completed then 1 else 0)
        && warnings == old(warnings) + (if admitted.pending.Some? && ev.ocrKey == "" then 1 else 0)
        && errors == old(errors) + (if ev.csv.Some? then 1 else 0)
                                 + (if requested && !Completed(ev.reply, ev.writeOk) then 1 else 0)
                                 + (if completed && reloaded.failed then 1 else 0)
                                 + (if afterOcr.keys == [] && reloaded.failed then 1 else 0)
    {
      requested := false;
      if ev.refreshPressed {
        Refresh(ev.listing, bucket, parse);
        rerun := true;
        return;
      }
      rerun := false;
      if ev.csv.Some? {
        rerun := UploadCsv(ev.csv.value, ev.writeOk, bucket, parse);
        if rerun {
          return;
        }
      }
      AdmitImage(ev.image);
      requested := ProcessImage(ev.ocrKey, ev.approvePressed, ev.reply, ev.writeOk, ev.listing, bucket, parse);
      LoadIfEmpty(ev.listing, bucket, parse);
      var defaultIndex := NormaliseSelection();
    }
  }
}
