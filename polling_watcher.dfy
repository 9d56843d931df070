/** The polling folder watcher: the set of files already handed to the
    callback, the "unprocessed files" query, and one pass of the polling
    loop. The directory listing (what glob would return) is an input: the
    set of file names present in the watched folder. */
module PollingWatcher {
  import opened Common

  /** The extensions watched when none are given. */
  const DefaultExtensions: seq<string> := [".pdf", ".doc", ".docx"]

  /** glob("*" + ext) matches `name` for some watched extension. */
  predicate Supported(name: string, extensions: seq<string>)
  {
    exists ext :: ext in extensions && EndsWith(name, ext)
  }

  /** The files of the listing that glob finds and that were not processed. */
  function Unprocessed(listing: set<string>, extensions: seq<string>, processed: set<string>): set<string>
  {
    (set name | name in listing && Supported(name, extensions)) - processed
  }

  /** After a poll that processed the new files except those whose callback
      failed, exactly the failed ones remain unprocessed; when none failed,
      nothing remains. */
  lemma PollLeavesOnlyFailures(listing: set<string>, extensions: seq<string>, processed: set<string>, failing: set<string>)
    ensures var after := processed + (Unprocessed(listing, extensions, processed) - failing);
      && Unprocessed(listing, extensions, after) == Unprocessed(listing, extensions, processed) * failing
      && (Unprocessed(listing, extensions, processed) * failing == {} ==> Unprocessed(listing, extensions, after) == {})
  {
  }

  class FileWatcher {
    const watchDir: string
    const supportedExtensions: seq<string>
    /** Names of the files whose callback has returned normally. */
    var processedFiles: set<string>

    constructor (watchDir: string, supportedExtensions: seq<string>)
      ensures this.watchDir == watchDir && this.supportedExtensions == supportedExtensions
      ensures processedFiles == {}
    {
      this.watchDir := watchDir;
      this.supportedExtensions := supportedExtensions;
      processedFiles := {};
    }

    /** The loop that gathers glob's matches, one extension at a time. */
    method CurrentFiles(listing: set<string>) returns (current: set<string>)
      ensures current == set name | name in listing && Supported(name, supportedExtensions)
    {
      current := {};
      for k := 0 to |supportedExtensions|
        invariant current == set name | name in listing && Supported(name, supportedExtensions[..k])
      {
        var ext := supportedExtensions[k];
        assert supportedExtensions[..k + 1] == supportedExtensions[..k] + [ext];
        current := current + set name | name in listing && EndsWith(name, ext);
      }
      assert supportedExtensions[..|supportedExtensions|] == supportedExtensions;
    }

    /** get_unprocessed_files: reads the processed set, changes nothing. */
    method GetUnprocessedFiles(listing: set<string>) returns (files: set<string>)
      ensures forall name :: name in files <==>
        name in listing && name !in processedFiles
        && exists ext :: ext in supportedExtensions && EndsWith(name, ext)
      ensures files == Unprocessed(listing, supportedExtensions, processedFiles)
    {
      var current := CurrentFiles(listing);
      files := current - processedFiles;
    }

    /** One pass of the polling loop: every new file goes to the callback,
        and a file joins the processed set only when its callback returns
        normally. `failing` holds the files whose callback raises. */
    method PollOnce(listing: set<string>, failing: set<string>)
      modifies this`processedFiles
      ensures processedFiles == old(processedFiles) + (Unprocessed(listing, supportedExtensions, old(processedFiles)) - failing)
      ensures old(processedFiles) <= processedFiles
      ensures forall name :: name in failing && name !in old(processedFiles) ==> name !in processedFiles
    {
      var current := CurrentFiles(listing);
      var newFiles := current - processedFiles;
      var remaining := newFiles;
      while remaining != {}
        invariant remaining <= newFiles
        invariant processedFiles == old(processedFiles) + ((newFiles - remaining) - failing)
        decreases remaining
      {
        var file :| file in remaining;
        if file !in failing {
          processedFiles := processedFiles + {file};
        }
        remaining := remaining - {file};
      }
    }
  }
}
