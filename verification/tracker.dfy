/** One run of the tracker (`track_stargazers`) as a transition over the two
    files it manages: the snapshot of all stargazers and the file of new ones. */
module Tracker {
  import opened Wrappers
  import opened Fetch
  import opened Diff
  import opened Snapshot

  /** The two files a run reads and writes. They always have distinct names. */
  datatype Files = Files(snapshot: CsvFile, newStars: CsvFile)

  /** The relation between the files before and after a run over the page
      oracle `pages`, and the run's outcome: the logins found new, or the
      error that ended it.

      The run fetches the current list, then reads the previous snapshot. If
      that read fails the run ends there and no file is touched. Otherwise the
      snapshot is overwritten with the current list, and the new-stargazer
      file is overwritten with the new logins if there are any and left as it
      was if there are none. */
  ghost predicate IsRun(pages: int -> Page, totalPages: int, before: Files, after: Files,
                  outcome: Result<seq<string>, ReadError>)
  {
    var current := Gather(pages, 1, totalPages);
    match ReadPrevious(before.snapshot)
    case Failure(e) => outcome == Failure(e) && after == before
    case Success(previous) =>
      && outcome.Success?
      && (forall x :: x in outcome.value <==> x in current && x !in previous)
      && NoDuplicates(outcome.value)
      && after.snapshot == Save(current)
      && after.newStars == (if outcome.value == [] then before.newStars else Save(outcome.value))
  }

  /** `track_stargazers`: fetch, read the previous snapshot, compare, save the
      current list over the snapshot, and save the new logins only when there
      are some. */
  method TrackStargazers(pages: int -> Page, totalPages: int, before: Files)
    returns (after: Files, outcome: Result<seq<string>, ReadError>)
    ensures IsRun(pages, totalPages, before, after, outcome)
    ensures outcome.Success? ==> ReadPrevious(after.snapshot) == Success(Gather(pages, 1, totalPages))
  {
    var current, requested := FetchStargazers(pages, totalPages);
    var previous := ReadPrevious(before.snapshot);
    if previous.Failure? {
      after := before;
      outcome := Failure(previous.error);
      return;
    }
    var added := FindNewStargazers(previous.value, current);
    after := before.(snapshot := Save(current));
    if |added| > 0 {
      after := after.(newStars := Save(added));
    }
    outcome := Success(added);
    SaveThenRead(current);
  }

  /** After a completed run the snapshot reads back as exactly the fetched
      list, whatever it held before: it is overwritten, never merged. */
  lemma RunOverwritesSnapshot(pages: int -> Page, totalPages: int, before: Files, after: Files,
                              outcome: Result<seq<string>, ReadError>)
    requires IsRun(pages, totalPages, before, after, outcome)
    requires outcome.Success?
    ensures ReadPrevious(after.snapshot) == Success(Gather(pages, 1, totalPages))
  {
    SaveThenRead(Gather(pages, 1, totalPages));
  }

  /** A run that ends with an error leaves both files as they were, and it
      ends with an error exactly when the previous snapshot cannot be read. */
  lemma RunFailsOnlyOnUnreadableSnapshot(pages: int -> Page, totalPages: int, before: Files, after: Files,
                                          outcome: Result<seq<string>, ReadError>)
    requires IsRun(pages, totalPages, before, after, outcome)
    ensures outcome.Failure? <==> ReadPrevious(before.snapshot).Failure?
    ensures outcome.Failure? ==> after == before
  {
  }

  /** A completed run rewrites the new-stargazer file exactly when some
      fetched login is missing from the previous snapshot; otherwise that
      file is untouched. */
  lemma RunWritesNewFileIff(pages: int -> Page, totalPages: int, before: Files, after: Files,
                            outcome: Result<seq<string>, ReadError>)
    requires IsRun(pages, totalPages, before, after, outcome)
    requires ReadPrevious(before.snapshot).Success?
    ensures var current, previous := Gather(pages, 1, totalPages), ReadPrevious(before.snapshot).value;
            outcome.value != [] <==> exists i :: 0 <= i < |current| && current[i] !in previous
    ensures outcome.value != [] ==> after.newStars == Save(outcome.value)
    ensures outcome.value == [] ==> after.newStars == before.newStars
  {
    var current, previous := Gather(pages, 1, totalPages), ReadPrevious(before.snapshot).value;
    if outcome.value != [] {
      assert outcome.value[0] in outcome.value;
    }
    if exists i :: 0 <= i < |current| && current[i] !in previous {
      var i :| 0 <= i < |current| && current[i] !in previous;
      assert current[i] in outcome.value;
    }
  }

  /** On the first run, with no snapshot file, every fetched login is new. */
  lemma FirstRunFindsEverything(pages: int -> Page, totalPages: int, before: Files, after: Files,
                                outcome: Result<seq<string>, ReadError>)
    requires IsRun(pages, totalPages, before, after, outcome)
    requires before.snapshot.None?
    ensures outcome.Success?
    ensures forall x :: x in outcome.value <==> x in Gather(pages, 1, totalPages)
  {
  }

  /** Running again against an unchanged upstream finds nothing new and leaves
      both files exactly as the first run left them. */
  lemma RunTwiceUnchanged(pages: int -> Page, totalPages: int,
                          first: Files, second: Files, third: Files,
                          outcome1: Result<seq<string>, ReadError>, outcome2: Result<seq<string>, ReadError>)
    requires IsRun(pages, totalPages, first, second, outcome1)
    requires IsRun(pages, totalPages, second, third, outcome2)
    ensures third == second
    ensures outcome1.Success? ==> outcome2 == Success([])
    ensures outcome1.Failure? ==> outcome2 == outcome1
  {
    if outcome1.Success? {
      var current := Gather(pages, 1, totalPages);
      SaveThenRead(current);
      assert ReadPrevious(second.snapshot) == Success(current);
      NothingNewWhenKnown(current, current, outcome2.value);
    }
  }
}
