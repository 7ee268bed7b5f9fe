/**
 * The deployment script: the `docker compose` argument list built by
 * `deploy_stack` and the action chosen from the command-line flags. Whether
 * a compose file exists is a parameter; running the command is not modelled.
 */
module Deploy {

  /** Either the argument list to run, or an early exit with a status code. */
  datatype Outcome = Run(args: seq<string>) | Exit(code: int)

  const DEV_FILE := "docker-compose.dev.yml"
  const PROD_FILE := "docker-compose.yml"
  const PROFILE := ["--profile", "with-rag"]

  /** The actions `main` can choose. */
  predicate IsAction(action: string)
  {
    action in {"up", "down", "logs", "ps"}
  }

  /** The words that end the command for each action; an unknown action adds none. */
  function ActionWords(action: string): (words: seq<string>)
    ensures words == [] || words[0] != PROFILE[0]
  {
    if action == "up" then ["up", "-d", "--build"]
    else if action == "down" then ["down"]
    else if action == "logs" then ["logs", "-f"]
    else if action == "ps" then ["ps"]
    else []
  }

  /** Whether the RAG profile is inserted: only for up, down and logs, and only when asked for. */
  predicate TakesProfile(withRag: bool, action: string)
  {
    withRag && action in {"up", "down", "logs"}
  }

  /** The compose file of a mode. */
  function ModeFile(mode: string): string
  {
    if mode == "dev" then DEV_FILE else PROD_FILE
  }

  /** The command line: base, compose file, optional profile, then the action words. */
  function Command(project: string, file: string, profile: bool, words: seq<string>): seq<string>
  {
    ["docker", "compose", "-p", project, "-f", file] + (if profile then PROFILE else []) + words
  }

  /** Where each part of a command line sits, for action words that cannot be mistaken for the profile. */
  lemma CommandLayout(project: string, file: string, profile: bool, words: seq<string>)
    requires words == [] || words[0] != PROFILE[0]
    ensures var args := Command(project, file, profile, words);
      && |args| == 6 + (if profile then 2 else 0) + |words|
      && args[..4] == ["docker", "compose", "-p", project]
      && args[4..6] == ["-f", file]
      && (|args| >= 8 && args[6..8] == PROFILE <==> profile)
      && args[|args| - |words|..] == words
  {
    var args := Command(project, file, profile, words);
    assert args[6..] == (if profile then PROFILE else []) + words;
    assert |args| >= 8 && args[6..8] == PROFILE ==> args[6] == args[6..8][0];
  }

  /**
   * `deploy_stack`: the base `docker compose -p <project>`, the compose file
   * of the mode (dev or prod, exiting with 1 when that file is missing or the
   * mode is unknown), the RAG profile where it applies, then the action words.
   */
  function DeployStack(mode: string, withRag: bool, action: string, project: string, fileExists: string -> bool): (r: Outcome)
    ensures r.Exit? <==> !((mode == "dev" && fileExists(DEV_FILE)) || (mode == "prod" && fileExists(PROD_FILE)))
    ensures r.Exit? ==> r.code == 1
    ensures r.Run? ==> |r.args| >= 6 && r.args[..4] == ["docker", "compose", "-p", project]
    ensures r.Run? ==> r.args[4..6] == ["-f", ModeFile(mode)]
    ensures r.Run? ==> (|r.args| >= 8 && r.args[6..8] == PROFILE <==> TakesProfile(withRag, action))
    ensures r.Run? ==> |r.args| == 6 + (if TakesProfile(withRag, action) then 2 else 0) + |ActionWords(action)|
    ensures r.Run? ==> r.args[|r.args| - |ActionWords(action)|..] == ActionWords(action)
  {
    if mode == "dev" && !fileExists(DEV_FILE) then Exit(1)
    else if mode == "prod" && !fileExists(PROD_FILE) then Exit(1)
    else if mode != "dev" && mode != "prod" then Exit(1)
    else
      CommandLayout(project, ModeFile(mode), TakesProfile(withRag, action), ActionWords(action));
      Run(Command(project, ModeFile(mode), TakesProfile(withRag, action), ActionWords(action)))
  }

  /** `ps` never carries the RAG profile, whatever the flag says. */
  lemma StatusNeverHasProfile(mode: string, withRag: bool, project: string, fileExists: string -> bool)
    ensures var r := DeployStack(mode, withRag, "ps", project, fileExists);
      r.Run? ==> "--profile" !in r.args[4..] && r.args[|r.args| - 1] == "ps"
  {
  }

  /** `up` always ends with `up -d --build`. */
  lemma UpRebuildsDetached(mode: string, withRag: bool, project: string, fileExists: string -> bool)
    ensures var r := DeployStack(mode, withRag, "up", project, fileExists);
      r.Run? ==> |r.args| >= 9 && r.args[|r.args| - 3..] == ["up", "-d", "--build"]
  {
  }

  /** What a command line says, read back from its fixed positions. */
  datatype Reading = Reading(project: string, mode: string, withRag: bool, action: string)

  function ReadCommand(args: seq<string>): (r: Reading)
    requires |args| >= 6
  {
    var rest := args[6..];
    var withRag := |rest| >= 2 && rest[..2] == PROFILE;
    var words := if withRag then rest[2..] else rest;
    Reading(args[3], if args[5] == DEV_FILE then "dev" else "prod", withRag, if words == [] then "" else words[0])
  }

  /**
   * A built command determines the project, the mode, the action and, except
   * for `ps`, the RAG flag: reading it back gives them all.
   */
  lemma CommandDeterminesRequest(mode: string, withRag: bool, action: string, project: string, fileExists: string -> bool)
    requires IsAction(action)
    ensures var r := DeployStack(mode, withRag, action, project, fileExists);
      r.Run? ==> ReadCommand(r.args) == Reading(project, mode, withRag && action != "ps", action)
  {
    var r := DeployStack(mode, withRag, action, project, fileExists);
    if r.Run? {
      assert r.args[3] == project;
      assert r.args[5] == ModeFile(mode);
      var rest := r.args[6..];
      var profile := if TakesProfile(withRag, action) then PROFILE else [];
      assert rest == profile + ActionWords(action);
      if !TakesProfile(withRag, action) {
        assert rest == ActionWords(action);
        assert !(|rest| >= 2 && rest[..2] == PROFILE) by {
          if |rest| >= 2 {
            assert rest[0] != "--profile" by {
              assert rest[0] in {"up", "down", "logs", "ps"};
            }
          }
        }
      } else {
        assert rest[2..] == ActionWords(action);
      }
    }
  }

  /** The action `main` chooses from its flags: down, then logs, then ps, otherwise up. */
  function SelectAction(down: bool, logs: bool, ps: bool): (action: string)
    ensures IsAction(action)
    ensures action == "down" <==> down
    ensures action == "logs" <==> (!down && logs)
    ensures action == "ps" <==> (!down && !logs && ps)
    ensures action == "up" <==> (!down && !logs && !ps)
  {
    if down then "down" else if logs then "logs" else if ps then "ps" else "up"
  }

  /**
   * `main` after argument parsing: Docker must be available and `.env` and
   * `docker-compose.yml` must exist (otherwise exit 1); then the stack is
   * deployed with the selected action.
   */
  function Main(mode: string, withRag: bool, project: string, down: bool, logs: bool, ps: bool,
                dockerAvailable: bool, fileExists: string -> bool): (r: Outcome)
    ensures !dockerAvailable || !fileExists(".env") || !fileExists(PROD_FILE) ==> r == Exit(1)
    ensures r.Run? ==> |r.args| > 6 && r.args[|r.args| - 1] in {"--build", "down", "-f", "ps"}
    ensures r.Run? && down ==> r.args[|r.args| - 1] == "down"
    ensures r.Exit? ==> r.code == 1
    ensures (dockerAvailable && fileExists(".env") && fileExists(PROD_FILE)
      && (mode == "prod" || (mode == "dev" && fileExists(DEV_FILE)))) ==>
      && r.Run? && r.args[4..6] == ["-f", ModeFile(mode)]
      && r.args[|r.args| - |ActionWords(SelectAction(down, logs, ps))|..] == ActionWords(SelectAction(down, logs, ps))
  {
    if !dockerAvailable || !fileExists(".env") || !fileExists(PROD_FILE) then Exit(1)
    else DeployStack(mode, withRag, SelectAction(down, logs, ps), project, fileExists)
  }
}
