/**
  The plugin's `file-open` handler: a Markdown note that is opened is read,
  every folder link in it is extracted, and each linked folder that does not
  exist yet is created, from the root of the vault.
 */
module FileOpen {
  import opened Wrappers
  import opened LinkScanner
  import opened FolderPath
  import opened FolderCreation
  import opened LinkedFolders

  /** The note passed to the handler; only its path matters here. */
  datatype File = File(path: string)

  predicate EndsWith(s: string, suffix: string) {
    |suffix| <= |s| && s[|s| - |suffix|..] == suffix
  }

  /** The guard of the handler: a note is handled only when there is one and
      its path ends in `.md`. */
  predicate IsHandled(file: Option<File>) {
    file.Some? && EndsWith(file.value.path, ".md")
  }

  /** The handler, with the vault's contents and the content of the note
      passed in: whether the note was read, the vault afterwards, the folders
      created, and the calls made on the vault. */
  method OnFileOpen(file: Option<File>, read: File -> string, vault: Vault)
    returns (didRead: bool, v: Vault, created: seq<string>, trace: seq<Call>)
    ensures didRead <==> IsHandled(file)
    ensures !IsHandled(file) ==> v == vault && created == [] && trace == []
    ensures IsHandled(file) ==> v == vault + Elems(FolderPaths(read(file.value)))
    ensures IsHandled(file) ==> Effect(v, created) == Run(vault, FolderPaths(read(file.value)))
    ensures IsHandled(file) ==> Queries(trace) == FolderPaths(read(file.value))
    ensures IsHandled(file) ==> Creations(trace) == created
    ensures IsHandled(file) ==> CheckThenAct(trace) && Truthful(vault, trace)
  {
    if file.None? || !EndsWith(file.value.path, ".md") {
      return false, vault, [], [];
    }
    var content := read(file.value);
    didRead := true;
    var paths := LinkedFolderPaths(content);
    v, created, trace := CreateMissingFolders(vault, paths);
  }

  /** Opening the same note a second time creates nothing and leaves the
      vault as the first opening left it. */
  lemma SecondOpenCreatesNothing(vault: Vault, content: string)
    ensures var first := Run(vault, FolderPaths(content));
      Run(first.vault, FolderPaths(content)) == Effect(first.vault, [])
  {
    RunIdempotent(vault, FolderPaths(content));
  }

  /** Content without any folder link changes nothing. */
  lemma NoLinkNoFolder(vault: Vault, content: string)
    requires MatchAll(content).None?
    ensures Run(vault, FolderPaths(content)) == Effect(vault, [])
  {
  }

  /** A folder that already exists is never created again, and a folder
      linked several times in one note is created at most once. */
  lemma ExistingFoldersUntouched(vault: Vault, content: string, p: string)
    ensures p in vault ==> p !in Run(vault, FolderPaths(content)).created
    ensures multiset(Run(vault, FolderPaths(content)).created)[p] <= 1
  {
    RunCreatesAtMostOnce(vault, FolderPaths(content), p);
  }
}
