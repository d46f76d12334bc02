/** Locating a template's configuration file (`getConfigPath` in
    src/createTemplateStructure/index.js). */
module ConfigPath {
  import opened Text

  /** What `getConfigPath` appends to the template's parent directory. */
  const ConfigFileSuffix: string := "/scaffolder.config.js"

  /** Split the path on `/`, drop the last segment, join the rest with `/`
      and append the config file name: the path up to its last `/`, then the
      config file name; a path without any `/` has no parent part. */
  function GetConfigPath(path: string): (r: string)
    ensures '/' !in path ==> r == ConfigFileSuffix
    ensures '/' in path ==> r == path[..LastIndexOf(path, '/')] + ConfigFileSuffix
  {
    var parts := Split(path, "/");
    DropLastSegment(path);
    Join(parts[..|parts| - 1], "/") + ConfigFileSuffix
  }

  /** Joining all but the last `/`-separated segment gives the path up to its
      last `/`, or nothing when there is no `/`. */
  lemma DropLastSegment(path: string)
    ensures var parts := Split(path, "/");
      && ('/' !in path ==> Join(parts[..|parts| - 1], "/") == "")
      && ('/' in path ==> Join(parts[..|parts| - 1], "/") == path[..LastIndexOf(path, '/')])
  {
    var parts := Split(path, "/");
    SplitLast(path, "/");
    if |parts| > 1 {
      ParentPart(path, Join(parts[..|parts| - 1], "/"), Last(parts));
    } else {
      ContainsChar(path, '/');
    }
  }

  lemma ParentPart(path: string, front: string, last: string)
    requires path == front + "/" + last && !Contains(last, "/")
    ensures '/' in path && path[..LastIndexOf(path, '/')] == front
  {
    ContainsChar(last, '/');
    assert path == front + ['/'] + last;
    LastIndexOfSplitPoint(front, '/', last);
    assert path[|front|] == '/';
  }
}
