/** The shell object of `DropboxCommand.py`: its one piece of local state is the
    remote working directory, which only `cd` changes and which every other
    command resolves its path arguments against. */
module DropboxCommand {
  import opened PathResolver

  class DropboxCommand {
    /** The remote working directory; `""` is the root. */
    var currentPath: string
    /** Whether the storage client was created when the shell started
        (`api_client` is not `None`). Without it, a command that needs a login
        stops with an error before its body runs. */
    var hasClient: bool
    /** The argument of every `cd` that ran, oldest first. */
    ghost var cds: seq<string>

    /** The working directory is where those `cd`s lead from the root, and is in normal form. */
    ghost predicate Valid()
      reads this
    {
      currentPath == AfterCds(cds) && IsNormal(currentPath)
    }

    /** A new shell starts at the root. Creating the storage client is outside the
        model: whether it succeeded is the parameter. */
    constructor (clientCreated: bool)
      ensures Valid()
      ensures currentPath == "" && cds == []
      ensures hasClient == clientCreated
    {
      currentPath := "";
      hasClient := clientCreated;
      cds := [];
    }

    /** `cd path`: the working directory becomes `path` resolved against it.
        Without a client the login guard stops the command with an error: the
        guard's message goes to a `stdout` attribute the shell does not have, so
        the lookup fails and the error is not caught. `ran` is then false and
        nothing has changed. */
    method Cd(path: string) returns (ran: bool)
      requires Valid()
      modifies this
      ensures Valid()
      ensures ran == hasClient && hasClient == old(hasClient)
      ensures currentPath == if ran then Resolve(old(currentPath), path) else old(currentPath)
      ensures cds == if ran then old(cds) + [path] else old(cds)
    {
      ran := hasClient;
      if ran {
        ResolveNormal(currentPath, path);
        currentPath := ChangePath(currentPath, path);
        cds := cds + [path];
        assert cds[..|cds| - 1] == old(cds);
      }
    }

    /** The remote path a command argument names; the working directory is left as it is. */
    method GetPath(path: string) returns (r: string)
      ensures r == Resolve(currentPath, path)
      ensures IsNormal(currentPath) ==> IsNormal(r)
    {
      if IsNormal(currentPath) {
        ResolveNormal(currentPath, path);
      }
      r := ChangePath(currentPath, path);
    }
  }
}
