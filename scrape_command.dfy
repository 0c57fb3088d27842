/** The `scrape_news` management command (scrapping/management/commands/scrape_news.py):
    a lock file keeps two runs from overlapping, and is removed after a run however it
    ends. The file system is a map from path to contents. */
module ScrapeCommand {
  import opened Wrappers
  import opened Text
  import opened Site
  import opened LinkRules
  import opened DateFormat
  import opened Sentiment
  import opened NewsDb
  import opened Ingest

  const LOCK_FILE := "/tmp/scraping.lock"

  /** `str(n)` for a process id. */
  function DecimalString(n: nat): (r: string)
    ensures r != [] && Digits(r)
  {
    if n < 10 then [DigitChar(n)] else DecimalString(n / 10) + [DigitChar(n % 10)]
  }

  /** The contents written to the lock file read back as the process id. */
  lemma {:induction false} DecimalStringValue(n: nat)
    ensures Number(DecimalString(n)) == n
  {
    var r := DecimalString(n);
    if n < 10 {
      Number1(r);
    } else {
      DecimalStringValue(n / 10);
      assert r[..|r| - 1] == DecimalString(n / 10);
    }
  }

  /** What `handle` did, in order. */
  datatype Event = LockWritten(contents: string) | GeneralScrape | LocalScrape | LockRemoved

  datatype Exit = AlreadyRunning | Raised(error: CrawlError) | Done

  /** The host the command runs on: its files, and a record of what runs did. */
  class Host {
    var files: map<string, string>
    ghost var events: seq<Event>

    constructor (files: map<string, string>)
      ensures this.files == files && events == []
    {
      this.files := files;
      events := [];
    }

    /** `Command.handle()`: with the lock file present it exits at once and touches
        nothing; otherwise it writes the lock with the process id, runs both scrapes and
        removes the lock however they ended. */
    method Handle(pid: nat, site: SiteMap, db: NewsTable, oracle: Oracle) returns (exit: Exit)
      requires db.Valid()
      modifies this, db
      ensures db.Valid()
      ensures db.reactions == old(db.reactions)
      ensures LOCK_FILE in old(files) ==>
        && exit == AlreadyRunning
        && files == old(files) && events == old(events)
        && db.rows == old(db.rows) && db.nextId == old(db.nextId)
      ensures LOCK_FILE !in old(files) ==>
        && files == old(files)
        && LOCK_FILE !in files
        && (BASE_URL !in site ==>
              && exit == Raised(FetchFailed(BASE_URL))
              && events == old(events) + [LockWritten(DecimalString(pid)), GeneralScrape, LockRemoved]
              && db.rows == old(db.rows) && db.nextId == old(db.nextId))
        && (BASE_URL in site ==>
              var general := KsatSave(old(db.rows), old(db.nextId), site);
              && exit == Done
              && events == old(events) + [LockWritten(DecimalString(pid)), GeneralScrape, LocalScrape, LockRemoved]
              && (db.rows, db.nextId) == LocalSave(general.0, general.1, site, oracle))
    {
      if LOCK_FILE in files {
        return AlreadyRunning;
      }
      var contents := DecimalString(pid);
      ghost var ev0 := events;
      files := files[LOCK_FILE := contents];
      assert files - {LOCK_FILE} == old(files);
      events := ev0 + [LockWritten(contents)];
      exit := RunScrapes(site, db, oracle);
      files := files - {LOCK_FILE};
      assert ev0 + [LockWritten(contents)] + [GeneralScrape] + [LockRemoved]
        == ev0 + [LockWritten(contents), GeneralScrape, LockRemoved];
      assert ev0 + [LockWritten(contents)] + [GeneralScrape, LocalScrape] + [LockRemoved]
        == ev0 + [LockWritten(contents), GeneralScrape, LocalScrape, LockRemoved];
      events := events + [LockRemoved];
    }

    /** The `try` block of `handle()`: the general scrape and, only if it returned, the
        local one. */
    method RunScrapes(site: SiteMap, db: NewsTable, oracle: Oracle) returns (exit: Exit)
      requires db.Valid()
      modifies this`events, db
      ensures db.Valid()
      ensures db.reactions == old(db.reactions)
      ensures BASE_URL !in site ==>
        && exit == Raised(FetchFailed(BASE_URL))
        && events == old(events) + [GeneralScrape]
        && db.rows == old(db.rows) && db.nextId == old(db.nextId)
      ensures BASE_URL in site ==>
        var general := KsatSave(old(db.rows), old(db.nextId), site);
        && exit == Done
        && events == old(events) + [GeneralScrape, LocalScrape]
        && (db.rows, db.nextId) == LocalSave(general.0, general.1, site, oracle)
    {
      events := events + [GeneralScrape];
      var general := ScrapeAndSaveKsat(site, db);
      if general.Ok? {
        events := events + [LocalScrape];
        ScrapeAndSaveLocal(site, db, oracle);
        exit := Done;
      } else {
        exit := Raised(general.error);
      }
    }
  }
}
