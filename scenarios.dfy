/** Client walk-throughs that start from an empty store and an empty
    upload directory. They are stated for any submitted forms with the
    property the walk-through relies on; `SampleSubmissions` passes the two
    sample forms through them. */
module Scenarios {

  import opened Wrappers
  import opened Text
  import opened Uploads
  import opened Records
  import opened Ordering
  import opened Store

  /** Tournament A of the scenarios, as submitted. */
  const SpringOpen := Form("Spring Open", "2024-03-01", "ACME", "Team X", "", "", "")

  /** Tournament B, three months later. */
  const SummerCup := Form("Summer Cup", "2024-06-01", "ACME", "Team Z", "", "", "")

  /** The sample forms are stored as submitted and are complete. */
  lemma SpringOpenComplete()
    ensures Stripped(SpringOpen) == SpringOpen && HasRequired(SpringOpen)
  {
    StrippedTrimmed(SpringOpen);
  }

  lemma SummerCupComplete()
    ensures Stripped(SummerCup) == SummerCup && HasRequired(SummerCup)
  {
    StrippedTrimmed(SummerCup);
  }

  /** A's date sorts before B's: they first differ in the month. */
  lemma SampleDates()
    ensures Less(SpringOpen.date, SummerCup.date)
  {
    LessAt(SpringOpen.date, SummerCup.date, 6);
  }

  /** Creating a complete record without an image succeeds; the listing
      then shows exactly that record. */
  method CreateThenList(a: Form, sanitize: string -> string)
    returns (response: Response, listing: seq<Tournament>)
    requires HasRequired(Stripped(a))
    ensures response == Created("id-a")
    ensures listing == [NewRecord(Stripped(a), None, "id-a", "t0")]
  {
    var store := new TournamentStore([], {});
    response := store.Create(a, NoFile, sanitize, "file-uuid", "id-a", "t0");
    listing := store.Listing();
  }

  /** A submission with a blank organizer is refused and nothing is
      stored. */
  method BlankOrganizer(a: Form, sanitize: string -> string)
    returns (response: Response, listing: seq<Tournament>)
    requires AllSpace(a.organizer)
    ensures response == BadRequest && listing == []
  {
    var store := new TournamentStore([], {});
    RejectedIffBlank(a);
    response := store.Create(a, NoFile, sanitize, "file-uuid", "id-a", "t0");
    listing := store.Listing();
  }

  /** Creating B and then the earlier A lists B first. */
  method NewestFirst(a: Form, b: Form, sanitize: string -> string) returns (listing: seq<Tournament>)
    requires HasRequired(Stripped(a)) && HasRequired(Stripped(b))
    requires Less(Stripped(a).date, Stripped(b).date)
    ensures |listing| == 2 && listing[0].id == "id-b" && listing[1].id == "id-a"
  {
    var store := new TournamentStore([], {});
    ghost var tb := NewRecord(Stripped(b), None, "id-b", "t0");
    ghost var ta := NewRecord(Stripped(a), None, "id-a", "t1");
    assert !SanitizeFails(NoFile, sanitize) && ImageName(NoFile, sanitize, "file-uuid") == None;
    var rb := store.Create(b, NoFile, sanitize, "file-uuid", "id-b", "t0");
    assert rb == Created("id-b");
    assert store.records == [tb];
    var ra := store.Create(a, NoFile, sanitize, "file-uuid", "id-a", "t1");
    assert ra == Created("id-a");
    assert store.records == [tb, ta];
    LessAsymmetric(ta.date, tb.date);
    SortTwo(tb, ta);
    listing := store.Listing();
    assert listing == [tb, ta];
  }

  /** Editing the runner-up of a record: the new value is stored,
      `updated_at` appears, and the creation time and the other fields are
      as before. */
  method EditSecondPlace(a: Form, sanitize: string -> string)
    returns (response: Response, shown: Option<Tournament>)
    requires HasRequired(Stripped(a)) && Stripped(a) == a
    ensures response == Updated("id-a")
    ensures shown == Some(NewRecord(a.(secondPlace := "Team Y"), None, "id-a", "t0").(updatedAt := Some("t1")))
  {
    var store := new TournamentStore([], {});
    var created := store.Create(a, NoFile, sanitize, "file-uuid", "id-a", "t0");
    var form := a.(secondPlace := "Team Y");
    StripTrimmed("Team Y");
    response := store.Edit("id-a", form, NoFile, sanitize, "file-uuid", "t1");
    shown := store.View("id-a");
  }

  /** An upload with a refused extension is skipped, not an error: the
      record is created without an image and no file is written. */
  method ExecutableSkipped(a: Form, sanitize: string -> string)
    returns (response: Response, shown: Option<Tournament>, ghost files: set<string>)
    requires HasRequired(Stripped(a))
    ensures response == Created("id-a")
    ensures shown.Some? && shown.value.bracketImage == None && files == {}
  {
    var store := new TournamentStore([], {});
    AllowedFileRejectsExtension();
    assert !Accepted(File("bracket.exe"));
    response := store.Create(a, File("bracket.exe"), sanitize, "0123abcd-uuid", "id-a", "t0");
    assert store.records == [NewRecord(Stripped(a), None, "id-a", "t0")];
    assert store.uploads == {};
    assert store.records[0].id == "id-a";
    shown := store.View("id-a");
    files := store.uploads;
  }

  /** Deleting a record with an image: the record is not found afterwards
      and its image file is gone. */
  method DeleteThenView(a: Form) returns (response: Response, shown: Option<Tournament>, ghost files: set<string>)
    requires HasRequired(Stripped(a))
    ensures response == Deleted && shown == None && files == {}
  {
    var store := new TournamentStore([], {});
    AllowedFileAccepts();
    var created := store.Create(a, File("bracket.png"), s => s, "0123abcd-uuid", "id-a", "t0");
    response := store.Delete("id-a");
    shown := store.View("id-a");
    files := store.uploads;
  }

  /** The sample forms through the walk-throughs: A alone is listed alone,
      and B followed by A is listed B first. */
  method SampleSubmissions() returns (response: Response, single: seq<Tournament>, both: seq<Tournament>)
    ensures response == Created("id-a") && single == [NewRecord(SpringOpen, None, "id-a", "t0")]
    ensures |both| == 2 && both[0].id == "id-b" && both[1].id == "id-a"
  {
    SpringOpenComplete();
    SummerCupComplete();
    SampleDates();
    response, single := CreateThenList(SpringOpen, s => s);
    both := NewestFirst(SpringOpen, SummerCup, s => s);
  }
}
