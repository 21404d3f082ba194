/** POSIX `os.path.join` of a directory and one file name. */
module Paths {
  import opened Strings

  /** `os.path.join(dir, name)`: an absolute `name` replaces `dir`; otherwise
      `name` is appended after a `/`, which is not doubled when `dir` already
      ends with one and is left out when `dir` is empty. */
  function PathJoin(dir: string, name: string): (r: string)
    ensures |name| > 0 && name[0] == '/' ==> r == name
    ensures !(|name| > 0 && name[0] == '/') ==> EndsWith(r, name)
    ensures !(|name| > 0 && name[0] == '/') && dir == "" ==> r == name
    ensures !(|name| > 0 && name[0] == '/') && dir != "" ==>
              |dir| + |name| <= |r| <= |dir| + 1 + |name| && r[..|dir|] == dir
              && r[|r| - |name| - 1] == '/'
    ensures !(|name| > 0 && name[0] == '/') && dir != "" && dir[|dir| - 1] == '/' ==> r == dir + name
    ensures !(|name| > 0 && name[0] == '/') && dir != "" && dir[|dir| - 1] != '/' ==> r == dir + "/" + name
  {
    if |name| > 0 && name[0] == '/' then name
    else if dir == "" || dir[|dir| - 1] == '/' then dir + name
    else dir + "/" + name
  }
}
