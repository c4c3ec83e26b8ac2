/**
 The class autoloader (PHP class `Autoloader`): a class name becomes a file
 path relative to the installation root, the loader looks for that file in
 two places in a fixed order, and either includes the first one found or
 throws.

 The file system and the PHP runtime are parameters: see Environment.
 */
module Autoloader {
  import opened Wrappers
  import opened PhpStrings

  /** The climb from the loader's directory to the installation root. */
  const Climb := "/../../../"

  const ClassFileExtension := ".php"

  /** Characters stripped from the front of a class name (`'\\'`). */
  const Backslash: set<char> := {'\\'}

  /** What the loader asks of its surroundings: `dir` stands for `__DIR__`,
      `pharDir` for `dirname(Phar::running(false))`, `separator` for
      `DIRECTORY_SEPARATOR` and `fileExists` for `file_exists`. */
  datatype Environment = Environment(
    dir: string,
    pharDir: string,
    separator: char,
    fileExists: string -> bool)

  /** The character a class-name character becomes in a path: namespace
      separators and underscores become directory separators. */
  function PathChar(c: char, separator: char): char {
    if c == '_' || c == '\\' then separator else c
  }

  /** The relative path of a class, as written: leading backslashes are
      removed with `ltrim`, then `str_replace` turns `_` and then `\` into
      the separator. The result is the name without its leading backslashes
      (and only those), each remaining character mapped by PathChar. */
  function ClassPath(name: string, separator: char): (r: string)
    ensures |r| <= |name|
    ensures AllIn(name[..|name| - |r|], Backslash)
    ensures |r| > 0 ==> name[|name| - |r|] != '\\'
    ensures forall k :: 0 <= k < |r| ==> r[k] == PathChar(name[|name| - |r| + k], separator)
  {
    var stripped := LTrim(name, Backslash);
    StrReplace(StrReplace(stripped, '_', separator), '\\', separator)
  }

  /** p splits into the directory dir, the climb, the class path and `.php`,
      in that order. */
  ghost predicate IsCandidatePath(p: string, dir: string, path: string) {
    var climbEnd := |dir| + |Climb|;
    && |p| == climbEnd + |path| + |ClassFileExtension|
    && p[..|dir|] == dir
    && p[|dir|..climbEnd] == Climb
    && p[climbEnd..climbEnd + |path|] == path
    && p[climbEnd + |path|..] == ClassFileExtension
  }

  /** The two places the loader looks, in the order it looks: first below
      the loader's own directory, then below the phar's directory. */
  function Candidates(name: string, env: Environment): (r: seq<string>)
    ensures |r| == 2
    ensures IsCandidatePath(r[0], env.dir, ClassPath(name, env.separator))
    ensures IsCandidatePath(r[1], env.pharDir, ClassPath(name, env.separator))
  {
    var path := ClassPath(name, env.separator);
    [env.dir + Climb + path + ClassFileExtension,
     env.pharDir + Climb + path + ClassFileExtension]
  }

  /** r is the first of cands that exists, or None when none does. */
  ghost predicate IsFirstExisting(r: Option<string>, cands: seq<string>, fileExists: string -> bool) {
    && (r.None? <==> forall k :: 0 <= k < |cands| ==> !fileExists(cands[k]))
    && (r.Some? ==>
          exists k :: 0 <= k < |cands| && cands[k] == r.value && fileExists(cands[k])
                      && forall j :: 0 <= j < k ==> !fileExists(cands[j]))
  }

  /** `exists`: the path to include for a class, or None (PHP's `false`).
      The path found is one of the two directories, the climb, the class
      path and `.php`, and it is the first candidate that exists. */
  function Locate(name: string, env: Environment): (r: Option<string>)
    ensures IsFirstExisting(r, Candidates(name, env), env.fileExists)
    ensures r.Some? ==>
              exists d :: d in [env.dir, env.pharDir]
                          && r.value == d + Climb + ClassPath(name, env.separator) + ClassFileExtension
  {
    var cands := Candidates(name, env);
    if env.fileExists(cands[0]) then
      Some(cands[0])
    else if env.fileExists(cands[1]) then
      assert forall j :: 0 <= j < 1 ==> !env.fileExists(cands[j]);
      Some(cands[1])
    else
      None
  }

  /** Leading backslashes make no difference to where a class is looked for. */
  lemma LeadingBackslashIrrelevant(name: string, env: Environment)
    ensures Locate("\\" + name, env) == Locate(name, env)
  {
    assert ("\\" + name)[1..] == name;
    assert LTrim("\\" + name, Backslash) == LTrim(name, Backslash);
  }

  /** With `/` as the separator, the class path has no namespace separator
      or underscore left: every one became a directory step. */
  lemma ClassPathUsesOnlySeparator(name: string)
    ensures forall k :: 0 <= k < |ClassPath(name, '/')| ==>
              ClassPath(name, '/')[k] != '_' && ClassPath(name, '/')[k] != '\\'
  {
  }

  /** What `defaultAutoloader` does for a class. */
  datatype LoadOutcome = Include(path: string) | Throw(message: string)

  /** `defaultAutoloader`: includes the file `exists` found, and otherwise
      throws an exception whose message is the class name as given (leading
      backslashes included). */
  function DefaultAutoloader(name: string, env: Environment): (r: LoadOutcome)
    ensures r.Include? <==>
              exists k :: 0 <= k < |Candidates(name, env)| && env.fileExists(Candidates(name, env)[k])
    ensures r.Include? ==> IsFirstExisting(Some(r.path), Candidates(name, env), env.fileExists)
    ensures r.Throw? ==> r.message == name
  {
    match Locate(name, env)
    case Some(path) => Include(path)
    case None => Throw(name)
  }
}
