/** The event-driven resume monitor: a created-file event becomes a call of
    the processing pipeline only for a file (not a directory) whose suffix,
    lower-cased, is a resume extension and whose name is not an Office lock
    file. Paths are strings with '/' as the separator. */
module ResumeMonitor {
  import opened Common
  import PollingWatcher

  /** The suffixes accepted as resumes, compared after lower-casing. */
  const ResumeExtensions: seq<string> := [".pdf", ".docx", ".doc"]

  /** The prefix of the lock files Office writes beside an open document. */
  const LockPrefix: string := "~$"

  datatype FileEvent = FileEvent(srcPath: string, isDirectory: bool)

  /** What became of a path: the three ways to be ignored, or dispatched to
      process_resume with that path. */
  datatype Outcome = IgnoredDirectory | IgnoredNotResume | IgnoredTemporary | Dispatched(path: string)

  /** str.rfind for one character: the last index holding `c`, or -1. */
  function LastIndexOf(s: string, c: char): (r: int)
    ensures -1 <= r < |s|
    ensures r >= 0 ==> s[r] == c
    ensures forall j :: r < j < |s| ==> s[j] != c
  {
    if |s| == 0 then -1
    else if s[|s| - 1] == c then |s| - 1
    else LastIndexOf(s[..|s| - 1], c)
  }

  /** The last index holding `c` is the one after which `c` no longer occurs. */
  lemma LastIndexOfIs(s: string, c: char, k: nat)
    requires k < |s| && s[k] == c
    requires forall j :: k < j < |s| ==> s[j] != c
    ensures LastIndexOf(s, c) == k
  {
  }

  /** Path.name: the last component of the path. */
  function FileName(path: string): (name: string)
    ensures '/' !in name
    ensures EndsWith(path, name)
  {
    var i := LastIndexOf(path, '/');
    path[i + 1..]
  }

  /** Path.suffix: from the last dot of the name, provided that dot is
      neither the name's first character nor its last; otherwise empty. */
  function Suffix(name: string): string
  {
    var i := LastIndexOf(name, '.');
    if 0 < i < |name| - 1 then name[i..] else ""
  }

  /** A resume extension is a dot followed by letters that are not dots. */
  predicate IsExtension(ext: string)
  {
    |ext| >= 2 && ext[0] == '.' && forall k :: 1 <= k < |ext| ==> ext[k] != '.'
  }

  /** process_file: the suffix test first, then the lock-file test. */
  function ProcessFile(path: string): (o: Outcome)
    ensures o != IgnoredDirectory
    ensures o.Dispatched? ==> o.path == path
  {
    var name := FileName(path);
    if Lower(Suffix(name)) !in ResumeExtensions then IgnoredNotResume
    else if StartsWith(name, LockPrefix) then IgnoredTemporary
    else Dispatched(path)
  }

  /** ResumeWatcher.on_created, whose callback is process_file. */
  function OnCreated(e: FileEvent): (o: Outcome)
    ensures e.isDirectory <==> o == IgnoredDirectory
  {
    if e.isDirectory then IgnoredDirectory else ProcessFile(e.srcPath)
  }

  /** The lower-cased suffix is the extension exactly when the name is
      longer than the extension and ends with it, ignoring case. */
  lemma SuffixIs(name: string, ext: string)
    requires IsExtension(ext)
    ensures Lower(Suffix(name)) == ext <==>
      |name| > |ext| && Lower(name[|name| - |ext|..]) == ext
  {
    var i := LastIndexOf(name, '.');
    if |name| > |ext| && Lower(name[|name| - |ext|..]) == ext {
      var k := |name| - |ext|;
      LowerCharIsDot(name[k]);
      assert name[k] == '.' by {
        assert Lower(name[k..])[0] == LowerChar(name[k]);
      }
      forall j | k < j < |name|
        ensures name[j] != '.'
      {
        assert Lower(name[k..])[j - k] == LowerChar(name[j]);
        LowerCharIsDot(name[j]);
      }
      assert i == k;
    }
    if Lower(Suffix(name)) == ext {
      assert 0 < i < |name| - 1;
      assert Suffix(name) == name[i..];
    }
  }

  /** A path is dispatched exactly when the last component ends with one of
      the resume extensions in any case, has more than the extension, and
      does not start with the lock prefix. */
  lemma ProcessFileSpec(path: string)
    ensures var name := FileName(path);
      ProcessFile(path) == Dispatched(path) <==>
        && (exists ext :: ext in ResumeExtensions && |name| > |ext| && Lower(name[|name| - |ext|..]) == ext)
        && !StartsWith(name, LockPrefix)
    ensures var name := FileName(path);
      ProcessFile(path) == IgnoredTemporary <==>
        Lower(Suffix(name)) in ResumeExtensions && StartsWith(name, LockPrefix)
  {
    var name := FileName(path);
    forall ext | ext in ResumeExtensions
      ensures Lower(Suffix(name)) == ext <==> |name| > |ext| && Lower(name[|name| - |ext|..]) == ext
    {
      SuffixIs(name, ext);
    }
  }

  /** Directory events never reach the pipeline; a file event reaches it
      exactly when process_file dispatches its path. */
  lemma OnCreatedSpec(e: FileEvent)
    ensures OnCreated(e).Dispatched? <==> !e.isDirectory && ProcessFile(e.srcPath) == Dispatched(e.srcPath)
    ensures OnCreated(e).Dispatched? ==> OnCreated(e).path == e.srcPath
  {
  }

  /** A path's last component is what follows its last separator. */
  lemma FileNameOfJoin(dir: string, name: string)
    requires '/' !in name
    ensures FileName(dir + "/" + name) == name
    ensures FileName(name) == name
  {
    var path := dir + "/" + name;
    LastIndexOfIs(path, '/', |dir|);
    assert path[|dir| + 1..] == name;
    assert LastIndexOf(name, '/') == -1;
  }

  /** Letter-level tests that keep string disequalities cheap. */
  lemma NotLockFile(name: string)
    requires name != [] && name[0] != '~'
    ensures !StartsWith(name, LockPrefix)
  {
  }

  /** The suffix of a non-empty stem followed by an extension is that
      extension. */
  lemma SuffixOfJoin(stem: string, ext: string)
    requires stem != [] && IsExtension(ext)
    ensures Suffix(stem + ext) == ext
  {
    var name := stem + ext;
    forall j | |stem| < j < |name|
      ensures name[j] != '.'
    {
      assert name[j] == ext[j - |stem|];
    }
    LastIndexOfIs(name, '.', |stem|);
    assert name[|stem|..] == ext;
  }

  /** A name that is an extension alone has no suffix. */
  lemma SuffixOfExtension(ext: string)
    requires IsExtension(ext)
    ensures Suffix(ext) == ""
  {
    LastIndexOfIs(ext, '.', 0);
  }

  /** A proof step, not a property: process_file's decision read off a name
      and lower-cased suffix computed beforehand, so that the examples below
      do not unfold FileName and Suffix on their arguments. */
  lemma ProcessFileDecision(path: string, name: string, lowSuffix: string)
    requires FileName(path) == name && Lower(Suffix(name)) == lowSuffix
    ensures ProcessFile(path) ==
      if lowSuffix !in ResumeExtensions then IgnoredNotResume
      else if StartsWith(name, LockPrefix) then IgnoredTemporary
      else Dispatched(path)
  {
  }

  /** A resume extension in any case is admitted: "dir/CV.PDF" is dispatched. */
  lemma AnyCaseResumeDispatched(dir: string, stem: string, ext: string)
    requires stem != [] && stem[0] != '~' && '/' !in stem
    requires IsExtension(ext) && '/' !in ext && Lower(ext) in ResumeExtensions
    ensures ProcessFile(dir + "/" + (stem + ext)) == Dispatched(dir + "/" + (stem + ext))
  {
    var name := stem + ext;
    assert '/' !in name;
    FileNameOfJoin(dir, name);
    SuffixOfJoin(stem, ext);
    assert name[0] == stem[0];
    NotLockFile(name);
    ProcessFileDecision(dir + "/" + name, name, Lower(ext));
  }

  /** An Office lock file is ignored as temporary even with a resume suffix:
      "dir/~$cv.docx". */
  lemma LockFileIgnored(dir: string, rest: string, ext: string)
    requires '/' !in rest
    requires IsExtension(ext) && '/' !in ext && Lower(ext) in ResumeExtensions
    ensures ProcessFile(dir + "/" + (LockPrefix + rest + ext)) == IgnoredTemporary
  {
    var name := LockPrefix + rest + ext;
    assert '/' !in name;
    FileNameOfJoin(dir, name);
    SuffixOfJoin(LockPrefix + rest, ext);
    assert name[..2] == LockPrefix;
    ProcessFileDecision(dir + "/" + name, name, Lower(ext));
  }

  /** A name that is only an extension has no suffix and is ignored:
      "dir/.pdf". */
  lemma BareExtensionIgnored(dir: string, ext: string)
    requires IsExtension(ext) && '/' !in ext
    ensures ProcessFile(dir + "/" + ext) == IgnoredNotResume
  {
    FileNameOfJoin(dir, ext);
    SuffixOfExtension(ext);
    assert Lower("") == "";
    assert "" !in ResumeExtensions;
    ProcessFileDecision(dir + "/" + ext, ext, "");
  }

  /** Only the last suffix counts: "dir/cv.pdf.txt" is ignored. */
  lemma LastSuffixCounts(dir: string, stem: string, ext: string)
    requires stem != [] && '/' !in stem
    requires IsExtension(ext) && '/' !in ext && Lower(ext) !in ResumeExtensions
    ensures ProcessFile(dir + "/" + (stem + ext)) == IgnoredNotResume
  {
    var name := stem + ext;
    assert '/' !in name;
    FileNameOfJoin(dir, name);
    SuffixOfJoin(stem, ext);
    ProcessFileDecision(dir + "/" + name, name, Lower(ext));
  }

  /** The two concrete extensions of the examples below are resume
      extensions: ".PDF" lower-cases to ".pdf", ".docx" is one already. */
  lemma ExampleResumeExtension(ext: string)
    requires ext == ".PDF" || ext == ".docx"
    ensures IsExtension(ext) && '/' !in ext && Lower(ext) in ResumeExtensions
  {
    if ext == ".PDF" {
      assert Lower(".PDF") == ".pdf";
    } else {
      assert Lower(".docx") == ".docx";
    }
  }

  /** The monitor's side of the comparison below, on concrete names. */
  lemma UpperCasePdfExample(dir: string)
    ensures ProcessFile(dir + "/" + ("CV" + ".PDF")).Dispatched?
  {
    ExampleResumeExtension(".PDF");
    AnyCaseResumeDispatched(dir, "CV", ".PDF");
  }

  lemma BarePdfExample(dir: string)
    ensures ProcessFile(dir + "/" + ".pdf") == IgnoredNotResume
  {
    assert IsExtension(".pdf");
    BareExtensionIgnored(dir, ".pdf");
  }

  lemma LockDocxExample(dir: string)
    ensures ProcessFile(dir + "/" + (LockPrefix + "cv" + ".docx")) == IgnoredTemporary
  {
    ExampleResumeExtension(".docx");
    LockFileIgnored(dir, "cv", ".docx");
  }

  /** The polling watcher's side, under case-sensitive (POSIX) glob
      matching as its model assumes: its default patterns refuse an
      upper-case extension, match a name that is only an extension, and
      match lock files. */
  lemma PollingExamples()
    ensures !PollingWatcher.Supported("CV" + ".PDF", PollingWatcher.DefaultExtensions)
    ensures PollingWatcher.Supported(".pdf", PollingWatcher.DefaultExtensions)
    ensures PollingWatcher.Supported(LockPrefix + "cv" + ".docx", PollingWatcher.DefaultExtensions)
  {
    assert EndsWith(".pdf", ".pdf");
    assert EndsWith(LockPrefix + "cv" + ".docx", ".docx");
    forall ext | ext in PollingWatcher.DefaultExtensions
      ensures !EndsWith("CV" + ".PDF", ext)
    {
      assert ("CV" + ".PDF")[5] == 'F';
    }
  }

  /** Under case-sensitive (POSIX) glob matching, the two watchers admit
      different files: "CV.PDF" only by the monitor, ".pdf" and "~$cv.docx"
      only by the polling watcher's defaults. On Windows, where glob
      ignores case, it would match "CV.PDF" too. */
  lemma WatchersDisagree(dir: string)
    ensures ProcessFile(dir + "/" + ("CV" + ".PDF")).Dispatched?
      && !PollingWatcher.Supported("CV" + ".PDF", PollingWatcher.DefaultExtensions)
    ensures !ProcessFile(dir + "/" + ".pdf").Dispatched?
      && PollingWatcher.Supported(".pdf", PollingWatcher.DefaultExtensions)
    ensures !ProcessFile(dir + "/" + (LockPrefix + "cv" + ".docx")).Dispatched?
      && PollingWatcher.Supported(LockPrefix + "cv" + ".docx", PollingWatcher.DefaultExtensions)
  {
    UpperCasePdfExample(dir);
    BarePdfExample(dir);
    LockDocxExample(dir);
    PollingExamples();
  }
}
