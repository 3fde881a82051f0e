/** The string logic of the split package's GitManager: which git command is
    run for a query, how its output is read, and how an SSH remote becomes a
    token-authenticated HTTPS URL.

    The process runner is a function from argv to the command's standard
    output, and the current working directory is an input. */
module SplitGit {
  import opened PhpValues
  import opened PhpStrings

  const TAG_LIST_COMMAND: seq<string> := ["git", "tag", "-l", "--sort=committerdate"]
  const CURRENT_BRANCH_COMMAND: seq<string> := ["git", "rev-parse", "--symbolic-full-name", "--abbrev-ref", "HEAD"]

  /** The argv a query runs: its base command, scoped to gitDirectory with a
      trailing `--git-dir <gitDirectory>` exactly when that directory is not the
      current working directory. */
  function ScopedCommand(base: seq<string>, gitDirectory: string, cwd: string): (command: seq<string>)
    ensures |command| >= |base| && command[..|base|] == base
    ensures cwd == gitDirectory <==> |command| == |base|
    ensures cwd != gitDirectory ==> command[|base|..] == ["--git-dir", gitDirectory]
  {
    if cwd != gitDirectory then base + ["--git-dir", gitDirectory] else base
  }

  /** Splits the output of `git tag` into lines: the output is trimmed, every
      carriage return removed, and the rest cut at each line feed. */
  function ParseTags(commandResult: string): (tags: seq<string>)
    ensures |tags| >= 1
    ensures forall i :: 0 <= i < |tags| ==> '\r' !in tags[i] && '\n' !in tags[i]
    ensures Implode(tags, '\n') == RemoveChar(Trim(commandResult), '\r')
  {
    var text := RemoveChar(Trim(commandResult), '\r');
    ImplodeExplode(text, '\n');
    ExplodeAvoids(text, '\n', '\r');
    Explode(text, '\n')
  }

  /** Blank output, as from a repository without tags, parses to a single
      empty line. */
  lemma BlankTagOutput(commandResult: string)
    requires AllBlank(commandResult)
    ensures ParseTags(commandResult) == [""]
  {
    TrimOfPadded(commandResult, [], []);
    assert commandResult + [] + [] == commandResult;
  }

  /** A tag listing, one tag per line and each line ended by a line feed, parses
      back to its tags in order; git tag names hold no blank characters. */
  lemma {:induction false} ParseTagListing(tags: seq<string>)
    requires |tags| >= 1
    requires forall i :: 0 <= i < |tags| ==> tags[i] != [] && forall j :: 0 <= j < |tags[i]| ==> !IsBlank(tags[i][j])
    ensures ParseTags(Implode(tags, '\n') + "\n") == tags
  {
    var m := Implode(tags, '\n');
    ImplodeEnds(tags, '\n');
    assert m + "\n" == [] + m + "\n";
    TrimOfPadded([], m, "\n");
    forall i | 0 <= i < |tags| ensures '\r' !in tags[i] && '\n' !in tags[i] {
      assert forall j :: 0 <= j < |tags[i]| ==> tags[i][j] != '\r' && tags[i][j] != '\n';
    }
    ImplodeChars(tags, '\n', '\r');
    RemoveAbsentChar(m, '\r');
    ExplodeImplode(tags, '\n');
  }

  /** Empty when the token is null, "" or "0" (PHP's empty()). */
  predicate TokenIsEmpty(token: Option<string>)
  {
    token.None? || IsEmpty(token.value)
  }

  /** Exactly three tokens count as missing: null, "" and "0". */
  lemma TokenIsEmptyCases(token: Option<string>)
    ensures TokenIsEmpty(token) <==> token == None || token == Some("") || token == Some("0")
  {
  }

  /** `https://<token>@` followed by the remote after its first `@`, with every
      `:` turned into `/`. */
  function AuthenticatedRemote(token: string, remoteRepository: string): (url: string)
    requires '@' in remoteRepository
    ensures var prefix := "https://" + token + "@";
      var after := remoteRepository[IndexOf(remoteRepository, '@') + 1..];
      && |url| == |prefix| + |after|
      && url[..|prefix|] == prefix
      && (forall j :: 0 <= j < |after| ==> url[|prefix| + j] == if after[j] == ':' then '/' else after[j])
      && ':' !in url[|prefix|..]
  {
    var partAfterAt := remoteRepository[IndexOf(remoteRepository, '@') + 1..];
    var url := "https://" + token + "@" + ReplaceChar(partAfterAt, ':', '/');
    assert url[|"https://" + token + "@"|..] == ReplaceChar(partAfterAt, ':', '/');
    url
  }

  /** An SSH remote `user@host:path` becomes `https://<token>@host/path`. */
  lemma {:induction false} SshRemoteRewrite(token: string, user: string, host: string, path: string)
    requires '@' !in user && ':' !in host && ':' !in path
    ensures AuthenticatedRemote(token, user + "@" + host + ":" + path) == "https://" + token + "@" + host + "/" + path
  {
    var remote := user + "@" + host + ":" + path;
    assert remote[|user|] == '@';
    assert forall j :: 0 <= j < |user| ==> remote[j] == user[j];
    IndexOfAt(remote, '@', |user|);
    assert remote[|user| + 1..] == host + ":" + path;
    ColonsReplaced(host, path);
  }

  lemma ColonsReplaced(host: string, path: string)
    requires ':' !in host && ':' !in path
    ensures ReplaceChar(host + ":" + path, ':', '/') == host + "/" + path
  {
    ReplaceCharConcat(host + ":", path, ':', '/');
    ReplaceCharConcat(host, ":", ':', '/');
    ReplaceAbsentChar(host, ':', '/');
    ReplaceAbsentChar(path, ':', '/');
    assert ReplaceChar(":", ':', '/') == "/";
  }


  class GitManager {
    const processRunner: seq<string> -> string
    const githubToken: Option<string>

    constructor (processRunner: seq<string> -> string, githubToken: Option<string>)
      ensures this.processRunner == processRunner && this.githubToken == githubToken
    {
      this.processRunner := processRunner;
      this.githubToken := githubToken;
    }

    /** The last line of the committer-date-sorted tag listing, or None when
        that line is empty (no local tags yet). */
    method GetMostRecentTag(gitDirectory: string, cwd: string) returns (tag: Option<string>)
      ensures var tags := ParseTags(processRunner(ScopedCommand(TAG_LIST_COMMAND, gitDirectory, cwd)));
        && (tag.None? <==> IsEmpty(tags[|tags| - 1]))
        && (tag.Some? ==> tag.value == tags[|tags| - 1])
      ensures tag.Some? ==> tag.value != [] && '\n' !in tag.value && '\r' !in tag.value
    {
      var command := TAG_LIST_COMMAND;
      if cwd != gitDirectory {
        command := command + ["--git-dir"];
        command := command + [gitDirectory];
      }
      assert command == ScopedCommand(TAG_LIST_COMMAND, gitDirectory, cwd);
      var tagList := ParseTags(processRunner(command));
      // array_pop
      var theMostRecentTag := tagList[|tagList| - 1];
      tagList := tagList[..|tagList| - 1];
      if IsEmpty(theMostRecentTag) {
        return None;
      }
      return Some(theMostRecentTag);
    }

    /** The trimmed output of the symbolic-ref query, or None when it is empty
        (not on a branch). */
    method GetCurrentBranch(gitDirectory: string, cwd: string) returns (branch: Option<string>)
      ensures var output := processRunner(ScopedCommand(CURRENT_BRANCH_COMMAND, gitDirectory, cwd));
        && (branch.None? <==> IsEmpty(Trim(output)))
        && (branch.Some? ==> branch.value == Trim(output))
      ensures branch.Some? ==> branch.value != [] && !IsBlank(branch.value[0]) && !IsBlank(branch.value[|branch.value| - 1])
    {
      var command := CURRENT_BRANCH_COMMAND;
      if cwd != gitDirectory {
        command := command + ["--git-dir"];
        command := command + [gitDirectory];
      }
      assert command == ScopedCommand(CURRENT_BRANCH_COMMAND, gitDirectory, cwd);
      var output := processRunner(command);
      var trimmed := Trim(output);
      if IsEmpty(trimmed) {
        return None;
      }
      return Some(trimmed);
    }

    /** With no token the remote is returned as it is; otherwise it becomes the
        token-authenticated HTTPS URL of the same repository. */
    function CompleteRemoteRepositoryWithGithubToken(remoteRepository: string): (url: string)
      requires TokenIsEmpty(githubToken) || '@' in remoteRepository
      ensures TokenIsEmpty(githubToken) ==> url == remoteRepository
      ensures !TokenIsEmpty(githubToken) ==> url == AuthenticatedRemote(githubToken.value, remoteRepository)
    {
      if TokenIsEmpty(githubToken) then remoteRepository
      else AuthenticatedRemote(githubToken.value, remoteRepository)
    }
  }
}
