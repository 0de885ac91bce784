/**
  The argument check of `main`: the program name, a path and an optional
  flag. Only the decision is modelled; the usage panic becomes `None`.
 */
module Args {
  import opened Wrappers

  datatype Config = Config(path: string, printFiles: bool)

  /** The flag that asks for files. */
  const FilesFlag: string := "-f"

  /** `os.Args` as `main` reads it: element 0 is the program name. */
  function ParseArgs(args: seq<string>): (r: Option<Config>)
    ensures r.Some? <==> |args| == 2 || |args| == 3
    ensures r.Some? ==> r.value.path == args[1]
    ensures r.Some? ==> (r.value.printFiles <==> |args| == 3 && args[2] == FilesFlag)
  {
    if !(|args| == 2 || |args| == 3) then None
    else Some(Config(args[1], |args| == 3 && args[2] == FilesFlag))
  }

  /** A path alone means directories only. */
  lemma PathAlone(program: string, path: string)
    ensures ParseArgs([program, path]) == Some(Config(path, false))
  {
  }

  /** Any third argument other than the flag is accepted and ignored. */
  lemma OtherFlagIgnored(program: string, path: string, flag: string)
    requires flag != FilesFlag
    ensures ParseArgs([program, path, flag]) == ParseArgs([program, path])
  {
  }

  /** No path, or more than a path and a flag, is a usage error. */
  lemma UsageError(args: seq<string>)
    requires |args| < 2 || |args| > 3
    ensures ParseArgs(args) == None
  {
  }
}
