/** The request handlers as methods on the stored state. Each request loads
    the whole collection, changes it in memory and writes it back; here that
    round trip is one object: `records` is the content of the data file and
    the ghost `uploads` is the set of file names in the upload directory.
    The file-name sanitizer, the UUID strings and the current time are
    parameters. */
module Store {

  import opened Wrappers
  import opened Text
  import opened Uploads
  import opened Records
  import opened Ordering

  /** What a handler answers: the JSON success envelopes, the 400 of a
      refused submission, the 404 of an unknown id, and the 500 the
      handler's catch-all returns. */
  datatype Response = Created(id: string) | Updated(id: string) | Deleted | BadRequest | NotFound | ServerError

  class TournamentStore {

    var records: seq<Tournament>
    ghost var uploads: set<string>

    /** The state a request starts from: the saved records (an absent data
        file reads as none) and the files present in the upload directory. */
    constructor (saved: seq<Tournament>, ghost files: set<string>)
      ensures records == saved && uploads == files
    {
      records := saved;
      uploads := files;
    }

    /** The detail page (and the form of the edit page): the first record
        with the id, or None for the 404 page. Nothing changes. */
    method View(id: string) returns (r: Option<Tournament>)
      ensures r.None? <==> forall j :: 0 <= j < |records| ==> records[j].id != id
      ensures r.Some? ==>
        && r.value.id == id
        && exists k :: 0 <= k < |records| && records[k] == r.value && forall j :: 0 <= j < k ==> records[j].id != id
    {
      var k := Find(records, id);
      if k.Some? {
        r := Some(records[k.value]);
      } else {
        r := None;
      }
    }

    /** The main page: the records sorted in place by date, newest first,
        by a stable insertion sort on an array copy. */
    method Listing() returns (r: seq<Tournament>)
      ensures r == SortByDate(records)
      ensures multiset(r) == multiset(records) && SortedDesc(r)
    {
      var s := records;
      var a := new Tournament[|s|](i requires 0 <= i < |s| => s[i]);
      var i := 0;
      while i < a.Length
        invariant 0 <= i <= a.Length == |s|
        invariant a[..i] == SortByDate(s[..i])
        invariant a[i..] == s[i..]
      {
        assert a[i] == a[i..][0] == s[i];
        assert a[i + 1..] == a[i..][1..] && s[i + 1..] == s[i..][1..];
        SortSorted(s[..i]);
        InsertLast(a, i);
        SortByDatePrefix(s, i);
        i := i + 1;
      }
      assert s[..a.Length] == s;
      r := a[..];
      SortPermutation(s);
      SortSorted(s);
    }

    /** Saving an accepted upload, shared by the add and edit handlers: the
        sanitized name must still have a `'.'` (its extension is split off,
        which raises otherwise, and then nothing is written); the file is
        written under its stored name, which is returned. */
    method SaveImage(filename: string, sanitize: string -> string, fileUuid: string)
      returns (stored: Option<string>)
      modifies this`uploads
      ensures stored.None? <==> '.' !in sanitize(filename)
      ensures stored.None? ==> uploads == old(uploads)
      ensures stored.Some? ==>
        stored.value == StoredName(fileUuid, sanitize(filename)) && uploads == old(uploads) + {stored.value}
    {
      var sanitized := sanitize(filename);
      var fileId := Take(fileUuid, 8);
      if '.' !in sanitized {
        return None;
      }
      var newFilename := fileId + "_" + sanitized;
      uploads := uploads + {newFilename};
      stored := Some(newFilename);
    }

    /** Removing a record's image file, shared by the edit and delete
        handlers: nothing happens when the record has no image or when the
        file is already gone. */
    method RemoveImage(image: Option<string>)
      modifies this`uploads
      ensures uploads == old(uploads) - ImageFiles(image)
    {
      if Present(image) {
        uploads := uploads - {image.value};
      }
    }

    /** The add handler. The fields are stripped; a missing required field
        is a 400 and nothing is stored. An accepted image is written under
        its stored name; when the sanitized name has no `'.'` the handler
        fails before writing anything. Otherwise exactly one record, with a
        new id, is appended and every existing record is kept. */
    method Create(form: Form, upload: Upload, sanitize: string -> string,
                  fileUuid: string, recordUuid: string, now: string)
      returns (response: Response)
      modifies this
      ensures response.BadRequest? <==> !HasRequired(Stripped(form))
      ensures response.ServerError? <==> HasRequired(Stripped(form)) && SanitizeFails(upload, sanitize)
      ensures response.BadRequest? || response.ServerError? || response == Created(recordUuid)
      ensures !response.Created? ==> records == old(records) && uploads == old(uploads)
      ensures response.Created? ==>
        var image := ImageName(upload, sanitize, fileUuid);
        && records == old(records) + [NewRecord(Stripped(form), image, recordUuid, now)]
        && uploads == old(uploads) + ImageFiles(image)
      ensures response.Created? && old(Consistent(records, uploads)) && recordUuid !in old(Ids(records)) &&
              (Accepted(upload) ==> StoredName(fileUuid, sanitize(upload.filename)) !in old(uploads)) ==>
              Consistent(records, uploads)
    {
      var f := Stripped(form);
      if !HasRequired(f) {
        return BadRequest;
      }
      var image: Option<string> := None;
      if Accepted(upload) {
        image := SaveImage(upload.filename, sanitize, fileUuid);
        if image.None? {
          return ServerError;
        }
      }
      var t := NewRecord(f, image, recordUuid, now);
      ghost var before := records;
      records := records + [t];
      response := Created(t.id);
      if && Consistent(before, old(uploads)) && recordUuid !in Ids(before)
         && (Accepted(upload) ==> StoredName(fileUuid, sanitize(upload.filename)) !in old(uploads)) {
        AppendConsistent(before, old(uploads), t);
      }
    }

    /** The edit handler. An unknown id is a 404 and nothing changes.
        Otherwise only the first record with the id changes: its seven text
        fields become the stripped inputs (empty values included), its id
        and creation time stay, `updated_at` is stamped, and its image is
        replaced only by an accepted upload, after the old image file is
        removed (a missing file is tolerated). When the sanitized name has
        no `'.'` the request fails after that removal and the records are
        not written back. */
    method Edit(id: string, form: Form, upload: Upload, sanitize: string -> string,
                fileUuid: string, now: string)
      returns (response: Response)
      modifies this
      ensures Find(old(records), id).None? ==>
        response == NotFound && records == old(records) && uploads == old(uploads)
      ensures Find(old(records), id).Some? ==>
        var k := Find(old(records), id).value;
        var t := old(records)[k];
        var cleared := if Accepted(upload) then old(uploads) - ImageFiles(t.bracketImage) else old(uploads);
        if SanitizeFails(upload, sanitize) then
          response == ServerError && records == old(records) && uploads == cleared
        else
          var newImage := ImageName(upload, sanitize, fileUuid);
          var image := if newImage.Some? then newImage else t.bracketImage;
          && response == Updated(id)
          && records == old(records)[k := Edited(t, Stripped(form), image, now)]
          && uploads == cleared + ImageFiles(newImage)
      ensures response.Updated? && old(Consistent(records, uploads)) &&
              (Accepted(upload) ==> StoredName(fileUuid, sanitize(upload.filename)) !in old(uploads)) ==>
              Consistent(records, uploads)
      ensures response.ServerError? ==>
        && Find(old(records), id).Some?
        && (Present(old(records)[Find(old(records), id).value].bracketImage) ==> !ImagesStored(records, uploads))
    {
      var found := Find(records, id);
      if found.None? {
        return NotFound;
      }
      var k := found.value;
      var t := records[k];
      var f := Stripped(form);
      var image := t.bracketImage;
      if Accepted(upload) {
        RemoveImage(t.bracketImage);
        image := SaveImage(upload.filename, sanitize, fileUuid);
        if image.None? {
          // raised after the old image was removed; nothing is saved
          if Present(t.bracketImage) {
            RemovedImageDangles(records, old(uploads), k);
          }
          return ServerError;
        }
      }
      ghost var before := records;
      var e := Edited(t, f, image, now);
      records := records[k := e];
      response := Updated(t.id);
      if Consistent(before, old(uploads)) &&
         (Accepted(upload) ==> StoredName(fileUuid, sanitize(upload.filename)) !in old(uploads)) {
        UpdateConsistent(before, old(uploads), k, e, uploads);
      }
    }

    /** The delete handler. An unknown id is a 404 and nothing changes.
        Otherwise the image file of the first record with the id is removed
        (a missing file is tolerated) and every record with the id is
        dropped, the others keeping their order. */
    method Delete(id: string) returns (response: Response)
      modifies this
      ensures Find(old(records), id).None? ==>
        response == NotFound && records == old(records) && uploads == old(uploads)
      ensures Find(old(records), id).Some? ==>
        && response == Deleted
        && records == Remove(old(records), id)
        && uploads == old(uploads) - ImageFiles(old(records)[Find(old(records), id).value].bracketImage)
      ensures response.Deleted? ==> Find(records, id).None?
      ensures old(Consistent(records, uploads)) ==> Consistent(records, uploads)
    {
      var found := Find(records, id);
      if found.None? {
        return NotFound;
      }
      var t := records[found.value];
      RemoveImage(t.bracketImage);
      ghost var before := records;
      records := Remove(records, id);
      response := Deleted;
      FindAfterRemove(before, id);
      if Consistent(before, old(uploads)) {
        RemoveConsistent(before, old(uploads), id);
      }
    }
  }

  /** One step of the insertion sort: `a[i]` moves left past every record
      of the sorted prefix `a[..i]` with a strictly earlier date. */
  method InsertLast(a: array<Tournament>, i: nat)
    requires i < a.Length && SortedDesc(a[..i])
    modifies a
    ensures a[..i + 1] == Insert(old(a[i]), old(a[..i]))
    ensures a[i + 1..] == old(a[i + 1..])
  {
    var x := a[i];
    ghost var p := a[..i];
    var j := InsertionPoint(a, i);
    ShiftRight(a, j, i);
    a[j] := x;
    InsertShifted(x, p, j, a[..i + 1]);
  }

  /** Where `a[i]` goes in the sorted `a[..i]`: after every record that is
      not older, before the strictly older ones that end the prefix. */
  method InsertionPoint(a: array<Tournament>, i: nat) returns (j: nat)
    requires i < a.Length
    ensures j <= i
    ensures j > 0 ==> !Less(a[j - 1].date, a[i].date)
    ensures forall m :: j <= m < i ==> Less(a[m].date, a[i].date)
  {
    j := i;
    while j > 0 && Less(a[j - 1].date, a[i].date)
      invariant 0 <= j <= i
      invariant forall m :: j <= m < i ==> Less(a[m].date, a[i].date)
    {
      j := j - 1;
    }
  }

  /** Moves `a[j..i]` one place right, over `a[i]`; the rest is kept. */
  method ShiftRight(a: array<Tournament>, j: nat, i: nat)
    requires j <= i < a.Length
    modifies a
    ensures forall m :: 0 <= m < j ==> a[m] == old(a[m])
    ensures forall m :: j < m <= i ==> a[m] == old(a[m - 1])
    ensures forall m :: i < m < a.Length ==> a[m] == old(a[m])
  {
    var k := i;
    while k > j
      invariant j <= k <= i
      invariant forall m :: 0 <= m <= k ==> a[m] == old(a[m])
      invariant forall m :: k < m <= i ==> a[m] == old(a[m - 1])
      invariant forall m :: i < m < a.Length ==> a[m] == old(a[m])
    {
      a[k] := a[k - 1];
      k := k - 1;
    }
  }
}
