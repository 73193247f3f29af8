/** `validateArgs`: turns the positional command-line arguments into the
    repository path and the contributors path, checking that both exist.
    The file system is abstracted as two parameters: `pathExists` answers
    whether a path exists (`existsSync`), and `join` is the (uninterpreted) path join. */
module Validation {
  import opened Wrappers
  import opened Strings

  /** The three errors `validateArgs` raises, in the order it checks them. */
  datatype ValidationError = NoRepoPath | RepoPathNotFound | ContributorsPathNotFound

  /** The tail both not-found messages share. */
  const NotFoundTail: string := " path does not exist, or it was not provided as an absolute path"

  /** The text of the `Error` each case throws. */
  function Message(e: ValidationError): string {
    match e
    case NoRepoPath => "No repo path provided"
    case RepoPathNotFound => "Repo" + NotFoundTail
    case ContributorsPathNotFound => "Contributors" + NotFoundTail
  }

  datatype Config = Config(repoPath: string, contributorsPath: string)

  const DefaultContributorsPath: string := "packages"

  /** `args?.[0]?.trim() || ''`. */
  function RepoPathArg(args: seq<string>): (p: string)
    ensures p == [] <==> |args| == 0 || AllWhitespace(args[0])
  {
    if |args| == 0 then "" else Trim(args[0])
  }

  /** `args?.[1] || 'packages'`: a missing or empty second argument means the default. */
  function ContributorsPathArg(args: seq<string>): (p: string)
    ensures p != []
    ensures |args| >= 2 && args[1] != [] ==> p == args[1]
    ensures |args| < 2 || args[1] == [] ==> p == DefaultContributorsPath
  {
    if |args| < 2 || args[1] == "" then DefaultContributorsPath else args[1]
  }

  function ValidateArgs(args: seq<string>, pathExists: string -> bool,
                        join: (string, string) -> string): (r: Result<Config, ValidationError>)
    // the empty-path check comes first and never consults the file system
    ensures r == Failure(NoRepoPath) <==> |args| == 0 || AllWhitespace(args[0])
    ensures r == Failure(RepoPathNotFound) <==>
      |args| > 0 && !AllWhitespace(args[0]) && !pathExists(Trim(args[0]))
    ensures r == Failure(ContributorsPathNotFound) <==>
      && |args| > 0 && !AllWhitespace(args[0]) && pathExists(Trim(args[0]))
      && !pathExists(join(Trim(args[0]), ContributorsPathArg(args)))
    ensures r.Success? ==> r.value == Config(Trim(args[0]), ContributorsPathArg(args))
    // a successful repository path is non-empty and carries no surrounding white space
    ensures r.Success? ==> var p := r.value.repoPath;
      p != [] && !IsWhitespace(p[0]) && !IsWhitespace(p[|p| - 1]) && pathExists(p)
    ensures r.Success? ==> pathExists(join(r.value.repoPath, r.value.contributorsPath))
  {
    var repoPath := RepoPathArg(args);
    var contributorsPath := ContributorsPathArg(args);
    if |repoPath| == 0 then Failure(NoRepoPath)
    else if !pathExists(repoPath) then Failure(RepoPathNotFound)
    else if !pathExists(join(repoPath, contributorsPath)) then Failure(ContributorsPathNotFound)
    else Success(Config(repoPath, contributorsPath))
  }

  /** The four scenarios of the repository's unit tests for `validateArgs`. */
  lemma ValidateArgsExamples(pathExists: string -> bool, join: (string, string) -> string)
    ensures ValidateArgs([], pathExists, join) == Failure(NoRepoPath)
    ensures ValidateArgs(["non-existent"], _ => false, join) == Failure(RepoPathNotFound)
    ensures ValidateArgs(["c:\\"], p => p == "c:\\", (a, b) => a + "\\" + b)
            == Failure(ContributorsPathNotFound)
    ensures ValidateArgs(["c:\\"], _ => true, join)
            == Success(Config("c:\\", "packages"))
  {
    var s := "c:\\";
    assert !IsWhitespace(s[0]) && !IsWhitespace(s[|s| - 1]);
    TrimOfTrimmed(s);
    assert s + "\\" + "packages" != s by {
      assert |s + "\\" + "packages"| != |s|;
    }
    var t := "non-existent";
    assert !IsWhitespace(t[0]);
  }

  /** The error message a call raises, if it fails. */
  function FailureMessage(r: Result<Config, ValidationError>): Option<string> {
    match r
    case Failure(e) => Some(Message(e))
    case Success(_) => None
  }

  /** Which message a call raises, for every argument list: each of the
      three texts exactly under the condition that raises it. */
  lemma ValidateArgsMessages(args: seq<string>, pathExists: string -> bool,
                             join: (string, string) -> string)
    ensures var m := FailureMessage(ValidateArgs(args, pathExists, join));
      m == Some(Message(NoRepoPath)) <==> |args| == 0 || AllWhitespace(args[0])
    ensures var m := FailureMessage(ValidateArgs(args, pathExists, join));
      m == Some(Message(RepoPathNotFound)) <==>
        |args| > 0 && !AllWhitespace(args[0]) && !pathExists(Trim(args[0]))
    ensures var m := FailureMessage(ValidateArgs(args, pathExists, join));
      m == Some(Message(ContributorsPathNotFound)) <==>
        && |args| > 0 && !AllWhitespace(args[0]) && pathExists(Trim(args[0]))
        && !pathExists(join(Trim(args[0]), ContributorsPathArg(args)))
    ensures FailureMessage(ValidateArgs(args, pathExists, join)).None? <==>
      ValidateArgs(args, pathExists, join).Success?
  {
    MessagesDistinct();
  }

  /** The three messages differ (already in their first character). */
  lemma MessagesDistinct()
    ensures Message(NoRepoPath) != Message(RepoPathNotFound)
    ensures Message(NoRepoPath) != Message(ContributorsPathNotFound)
    ensures Message(RepoPathNotFound) != Message(ContributorsPathNotFound)
  {
    assert Message(NoRepoPath)[0] == 'N';
    assert Message(RepoPathNotFound)[0] == 'R';
    assert Message(ContributorsPathNotFound)[0] == 'C';
  }
}
