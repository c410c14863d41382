/**
 * The configuration a first run starts from, `DEFAULT_CONFIG` of
 * lib/config.js: sixteen aliases, each a name bound to the git command
 * template it stands for.
 */
module Config {
  /**
   * The aliases written to a new configuration file. No template is empty, so
   * every default alias counts as defined.
   */
  function DefaultAliases(): (m: map<string, string>)
    ensures forall name :: name in m ==> m[name] != ""
  {
    map[
      "st" := "git status",
      "cmt" := "git commit -m \"$1\"",
      "co" := "git checkout $@",
      "br" := "git branch $@",
      "push" := "git push $@",
      "pull" := "git pull $@",
      "log" := "git log --oneline -10",
      "diff" := "git diff $@",
      "add" := "git add $@",
      "stash" := "git stash $@",
      "recent" := "git log --oneline --graph --decorate -15",
      "unstage" := "git reset HEAD $@",
      "amend" := "git commit --amend",
      "undo" := "git reset --soft HEAD~1",
      "branches" := "git branch -a",
      "remotes" := "git remote -v"
    ]
  }
}
