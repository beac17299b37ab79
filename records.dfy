/** The tournament record, the form that creates and edits it, and the
    collection-level operations the handlers perform on the stored list:
    first-match lookup by id, removal by id, and the consistency between
    records and the upload directory. */
module Records {

  import opened Wrappers
  import opened Text
  import opened Uploads

  /** One stored tournament. `bracketImage` is the stored file name or
      None (JSON `null`); `updatedAt` is None until the first edit, when
      the key is absent from the record. */
  datatype Tournament = Tournament(
    id: string,
    tournamentName: string,
    date: string,
    organizer: string,
    firstPlace: string,
    secondPlace: string,
    thirdPlace: string,
    description: string,
    bracketImage: Option<string>,
    createdAt: string,
    updatedAt: Option<string>)

  /** The seven text fields of the add and edit forms; a field the request
      does not carry reads as "" (`request.form.get(name, '')`). */
  datatype Form = Form(
    tournamentName: string,
    date: string,
    organizer: string,
    firstPlace: string,
    secondPlace: string,
    thirdPlace: string,
    description: string)

  /** Every field with `.strip()` applied. */
  function Stripped(f: Form): Form
  {
    Form(Strip(f.tournamentName), Strip(f.date), Strip(f.organizer), Strip(f.firstPlace),
         Strip(f.secondPlace), Strip(f.thirdPlace), Strip(f.description))
  }

  /** The required-field check of the add handler: name, date, organizer
      and winner all non-empty. */
  predicate HasRequired(f: Form)
  {
    f.tournamentName != "" && f.date != "" && f.organizer != "" && f.firstPlace != ""
  }

  /** A submission is refused exactly when one of the four required fields,
      as submitted, is empty or made only of white space. */
  lemma RejectedIffBlank(f: Form)
    ensures !HasRequired(Stripped(f)) <==>
      AllSpace(f.tournamentName) || AllSpace(f.date) || AllSpace(f.organizer) || AllSpace(f.firstPlace)
  {
    StripEmptyIff(f.tournamentName);
    StripEmptyIff(f.date);
    StripEmptyIff(f.organizer);
    StripEmptyIff(f.firstPlace);
  }

  /** A form whose fields carry no surrounding white space is stored as
      submitted. */
  lemma StrippedTrimmed(f: Form)
    requires Trimmed(f.tournamentName) && Trimmed(f.date) && Trimmed(f.organizer) && Trimmed(f.firstPlace)
    requires Trimmed(f.secondPlace) && Trimmed(f.thirdPlace) && Trimmed(f.description)
    ensures Stripped(f) == f
  {
    StripTrimmed(f.tournamentName);
    StripTrimmed(f.date);
    StripTrimmed(f.organizer);
    StripTrimmed(f.firstPlace);
    StripTrimmed(f.secondPlace);
    StripTrimmed(f.thirdPlace);
    StripTrimmed(f.description);
  }

  /** The text fields of a record, as a form. */
  function TextOf(t: Tournament): Form
  {
    Form(t.tournamentName, t.date, t.organizer, t.firstPlace, t.secondPlace, t.thirdPlace, t.description)
  }

  /** The record the add handler builds from already stripped fields. */
  function NewRecord(f: Form, image: Option<string>, id: string, now: string): (t: Tournament)
    ensures TextOf(t) == f && t.id == id && t.bracketImage == image
    ensures t.createdAt == now && t.updatedAt == None
  {
    Tournament(id, f.tournamentName, f.date, f.organizer, f.firstPlace, f.secondPlace,
               f.thirdPlace, f.description, image, now, None)
  }

  /** The record after the edit handler's field assignments: the text
      fields overwritten, the image set to `image`, `updated_at` stamped;
      `id` and `created_at` are the old ones. */
  function Edited(t: Tournament, f: Form, image: Option<string>, now: string): (e: Tournament)
    ensures TextOf(e) == f && e.bracketImage == image && e.updatedAt == Some(now)
    ensures e.id == t.id && e.createdAt == t.createdAt
  {
    t.(tournamentName := f.tournamentName, date := f.date, organizer := f.organizer,
       firstPlace := f.firstPlace, secondPlace := f.secondPlace, thirdPlace := f.thirdPlace,
       description := f.description, bracketImage := image, updatedAt := Some(now))
  }

  /** Stripping a form twice is stripping it once. */
  lemma StrippedIdempotent(f: Form)
    ensures Stripped(Stripped(f)) == Stripped(f)
  {
    StripIdempotent(f.tournamentName);
    StripIdempotent(f.date);
    StripIdempotent(f.organizer);
    StripIdempotent(f.firstPlace);
    StripIdempotent(f.secondPlace);
    StripIdempotent(f.thirdPlace);
    StripIdempotent(f.description);
  }

  /** The edit form shows a record's stored values; submitting them back
      unchanged, without a new image, changes nothing but `updated_at`,
      because a record made by the add handler holds stripped values. */
  lemma ResubmitKeepsRecord(f: Form, image: Option<string>, id: string, created: string, now: string)
    ensures var t := NewRecord(Stripped(f), image, id, created);
            Edited(t, Stripped(TextOf(t)), t.bracketImage, now) == t.(updatedAt := Some(now))
  {
    StrippedIdempotent(f);
  }

  /** `next((t for t in ts if t['id'] == id), None)`, as a position: the
      first record whose id is `id`, or None when there is none. */
  function Find(ts: seq<Tournament>, id: string): (r: Option<nat>)
    ensures r.Some? ==> r.value < |ts| && ts[r.value].id == id
    ensures r.Some? ==> forall j :: 0 <= j < r.value ==> ts[j].id != id
    ensures r.None? <==> forall j :: 0 <= j < |ts| ==> ts[j].id != id
  {
    if ts == [] then None
    else if ts[0].id == id then Some(0)
    else match Find(ts[1..], id)
         case None => None
         case Some(k) => Some(k + 1)
  }

  /** `[t for t in ts if t['id'] != id]`: every record with that id is
      gone and every other record is kept. */
  function Remove(ts: seq<Tournament>, id: string): seq<Tournament>
  {
    if ts == [] then []
    else if ts[0].id == id then Remove(ts[1..], id)
    else [ts[0]] + Remove(ts[1..], id)
  }

  /** Removal keeps exactly the records with another id and never grows
      the collection. */
  lemma {:induction false} RemoveMembers(ts: seq<Tournament>, id: string)
    ensures forall t :: t in Remove(ts, id) <==> t in ts && t.id != id
    ensures |Remove(ts, id)| <= |ts|
  {
    if ts != [] {
      RemoveMembers(ts[1..], id);
      assert ts == [ts[0]] + ts[1..];
    }
  }

  /** Removal distributes over concatenation; with the membership contract
      of `Remove` this says the survivors keep their relative order. */
  lemma {:induction false} RemoveConcat(a: seq<Tournament>, b: seq<Tournament>, id: string)
    ensures Remove(a + b, id) == Remove(a, id) + Remove(b, id)
  {
    if a == [] {
      assert a + b == b;
    } else {
      assert (a + b)[1..] == a[1..] + b;
      RemoveConcat(a[1..], b, id);
    }
  }

  /** Removing an id no record carries changes nothing. */
  lemma {:induction false} RemoveAbsent(ts: seq<Tournament>, id: string)
    requires forall j :: 0 <= j < |ts| ==> ts[j].id != id
    ensures Remove(ts, id) == ts
  {
    if ts != [] {
      assert ts[0].id != id;
      assert forall j :: 0 <= j < |ts[1..]| ==> ts[1..][j] == ts[j + 1];
      RemoveAbsent(ts[1..], id);
      assert [ts[0]] + ts[1..] == ts;
    }
  }

  /** After removal the id is not found any more. */
  lemma FindAfterRemove(ts: seq<Tournament>, id: string)
    ensures Find(Remove(ts, id), id).None?
  {
    RemoveMembers(ts, id);
    var r := Remove(ts, id);
    forall j | 0 <= j < |r| ensures r[j].id != id {
      assert r[j] in r;
    }
  }

  /** The ids of the records. */
  function Ids(ts: seq<Tournament>): set<string>
  {
    set t | t in ts :: t.id
  }

  /** No two records share an id. */
  ghost predicate UniqueIds(ts: seq<Tournament>)
  {
    forall i, j :: 0 <= i < j < |ts| ==> ts[i].id != ts[j].id
  }

  /** Every image a record names is a file in the upload directory. */
  ghost predicate ImagesStored(ts: seq<Tournament>, uploads: set<string>)
  {
    forall i :: 0 <= i < |ts| && Present(ts[i].bracketImage) ==> ts[i].bracketImage.value in uploads
  }

  /** No two records name the same image file. */
  ghost predicate DistinctImages(ts: seq<Tournament>)
  {
    forall i, j :: 0 <= i < j < |ts| && Present(ts[i].bracketImage) && Present(ts[j].bracketImage) ==>
      ts[i].bracketImage.value != ts[j].bracketImage.value
  }

  /** The consistency the storage layout is meant to keep: unique ids, and
      one stored file per image, owned by one record. */
  ghost predicate Consistent(ts: seq<Tournament>, uploads: set<string>)
  {
    UniqueIds(ts) && ImagesStored(ts, uploads) && DistinctImages(ts)
  }

  /** With unique ids, removing the id of record `k` removes just that
      record. */
  lemma RemoveUnique(ts: seq<Tournament>, k: nat)
    requires UniqueIds(ts) && k < |ts|
    ensures Remove(ts, ts[k].id) == ts[..k] + ts[k + 1..]
  {
    var a, b := ts[..k], ts[k + 1..];
    OthersApart(ts, k, a, b);
    RemoveSplit(a, ts[k], b);
  }

  /** The records before and after record `k` carry other ids, and
      together with it they make up the whole list. */
  lemma OthersApart(ts: seq<Tournament>, k: nat, a: seq<Tournament>, b: seq<Tournament>)
    requires UniqueIds(ts) && k < |ts| && a == ts[..k] && b == ts[k + 1..]
    ensures forall j :: 0 <= j < |a| ==> a[j].id != ts[k].id
    ensures forall j :: 0 <= j < |b| ==> b[j].id != ts[k].id
    ensures ts == a + ([ts[k]] + b)
  {
    forall j | 0 <= j < |a| ensures a[j].id != ts[k].id {
      assert a[j] == ts[j];
    }
    forall j | 0 <= j < |b| ensures b[j].id != ts[k].id {
      assert b[j] == ts[k + 1 + j];
    }
  }

  /** Removing the id of `x` from `a + [x] + b`, where neither `a` nor `b`
      carries that id, leaves `a + b`. */
  lemma RemoveSplit(a: seq<Tournament>, x: Tournament, b: seq<Tournament>)
    requires forall j :: 0 <= j < |a| ==> a[j].id != x.id
    requires forall j :: 0 <= j < |b| ==> b[j].id != x.id
    ensures Remove(a + ([x] + b), x.id) == a + b
  {
    RemoveConcat(a, [x] + b, x.id);
    RemoveConcat([x], b, x.id);
    RemoveAbsent(a, x.id);
    RemoveAbsent(b, x.id);
    assert Remove([x], x.id) == [];
    assert [] + b == b;
  }

  /** Appending a record with a fresh id, whose image (if any) is a file
      not yet in the upload directory and now added to it, keeps the
      collection consistent. */
  lemma AppendConsistent(ts: seq<Tournament>, uploads: set<string>, t: Tournament)
    requires Consistent(ts, uploads)
    requires t.id !in Ids(ts)
    requires Present(t.bracketImage) ==> t.bracketImage.value !in uploads
    ensures Consistent(ts + [t], uploads + ImageFiles(t.bracketImage))
  {
    var r := ts + [t];
    forall i, j | 0 <= i < j < |r| ensures r[i].id != r[j].id {
      if j == |ts| {
        assert r[i] in ts;
      }
    }
  }

  /** Dropping record `k` together with its image file keeps the
      collection consistent. */
  lemma DropConsistent(ts: seq<Tournament>, uploads: set<string>, k: nat)
    requires Consistent(ts, uploads) && k < |ts|
    ensures Consistent(ts[..k] + ts[k + 1..], uploads - ImageFiles(ts[k].bracketImage))
  {
    var r := ts[..k] + ts[k + 1..];
    var up := uploads - ImageFiles(ts[k].bracketImage);
    forall i | 0 <= i < |r| ensures r[i] == ts[Skip(i, k)] {
      if i < k {
        assert r[i] == ts[..k][i];
      } else {
        assert r[i] == ts[k + 1..][i - k];
      }
    }
    forall i, j | 0 <= i < j < |r| ensures r[i].id != r[j].id {
      assert Skip(i, k) < Skip(j, k);
    }
    forall i | 0 <= i < |r| && Present(r[i].bracketImage) ensures r[i].bracketImage.value in up {
      assert Skip(i, k) != k;
    }
    forall i, j | 0 <= i < j < |r| && Present(r[i].bracketImage) && Present(r[j].bracketImage)
      ensures r[i].bracketImage.value != r[j].bracketImage.value
    {
      assert Skip(i, k) < Skip(j, k);
    }
  }

  /** The index in the original sequence of position `i` once position
      `k` is dropped. */
  function Skip(i: nat, k: nat): (m: nat)
    ensures m != k && (i < k ==> m == i) && (i >= k ==> m == i + 1)
  {
    if i < k then i else i + 1
  }

  /** Deleting the first record with a given id, together with its image
      file, keeps the collection consistent. */
  lemma RemoveConsistent(ts: seq<Tournament>, uploads: set<string>, id: string)
    requires Consistent(ts, uploads)
    requires Find(ts, id).Some?
    ensures Consistent(Remove(ts, id), uploads - ImageFiles(ts[Find(ts, id).value].bracketImage))
  {
    var k := Find(ts, id).value;
    RemoveUnique(ts, k);
    DropConsistent(ts, uploads, k);
  }

  /** Removing the image file of a record that keeps naming it leaves a
      dangling reference: this is the state a failed edit leaves behind. */
  lemma RemovedImageDangles(ts: seq<Tournament>, uploads: set<string>, k: nat)
    requires k < |ts| && Present(ts[k].bracketImage)
    ensures !ImagesStored(ts, uploads - ImageFiles(ts[k].bracketImage))
  {
    assert ts[k].bracketImage.value !in uploads - ImageFiles(ts[k].bracketImage);
  }

  /** Replacing record `k` by a record with the same id keeps the
      collection consistent, either when the image is kept and the upload
      directory is untouched, or when the old image file is removed and a
      fresh file added for the new image. */
  lemma UpdateConsistent(ts: seq<Tournament>, uploads: set<string>, k: nat, e: Tournament, uploads': set<string>)
    requires Consistent(ts, uploads) && k < |ts| && e.id == ts[k].id
    requires || (e.bracketImage == ts[k].bracketImage && uploads' == uploads)
             || (Present(e.bracketImage) && e.bracketImage.value !in uploads &&
                 uploads' == uploads - ImageFiles(ts[k].bracketImage) + {e.bracketImage.value})
    ensures Consistent(ts[k := e], uploads')
  {
    var r := ts[k := e];
    forall i | 0 <= i < |r| && Present(r[i].bracketImage) ensures r[i].bracketImage.value in uploads' {
      if i != k && e.bracketImage != ts[k].bracketImage {
        assert r[i] == ts[i];
      }
    }
  }
}
