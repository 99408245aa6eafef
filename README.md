# Remote path resolution of the Dropbox command shell

The shell keeps one piece of local state: the remote working directory
`current_path`. `cd` changes it; every other command turns its path arguments
into absolute remote paths by resolving them against it. Resolution works on a
list of segments. A backslash counts as `/`. A path that begins with `/`
starts from the root; any other path starts from the working directory's
segments. Then each `/`-separated segment is applied in turn: `..` drops the
last segment (at the root it does nothing), `.` and empty segments are skipped,
and anything else is appended. The result is `""` for the root, otherwise `/`
followed by the segments joined with `/`.

The repository holds two versions of the shell, `DropboxCommand.py` and
`NewDropboxCommand.py`. Their resolvers (`change_path` at lines 171-184 and
`__change_path` at lines 131-144) have the same text, line for line. The model
therefore has one resolver: the loop `PathResolver.ChangePath` and its
specification `PathResolver.Resolve`. Every property proved about `Resolve`
below cites the `DropboxCommand.py` lines. It holds equally for the copy in
`NewDropboxCommand.py`, 40 lines earlier.

Files:

- `strings.dfy`, module `Strings`: the Python string operations the resolver
  uses, on `seq<char>`. They are `str.replace` for one character, `str.split`
  and `str.join` on a one-character separator. The round-trip lemmas connect
  split and join.
- `path_resolver.dfy`, module `PathResolver`: the segment stack (`Step`,
  `Walk`), the rendering of a stack as a path (`Render`), the normal form of a
  working directory (`IsNormal`), the specification `Resolve`, and the
  imperative `ChangePath`. That loop pops and pushes on a segment list exactly
  as the source does, and is proved equal to `Resolve`. The module also holds
  the lemmas about `Resolve` and the worked examples.
- `dropbox_command.dfy`, `new_dropbox_command.dfy`: the two shell classes.
  Each has the field `currentPath`, a constructor that starts at the root, `Cd`
  and `GetPath`. A ghost field records the arguments of the `cd`s that ran, and
  the class invariant says `currentPath` is where they lead from the root and
  is in normal form.

The login guard of the `command` decorator (`DropboxCommand.py:14-17`,
`NewDropboxCommand.py:19-22`) is kept only for its effect on state. It is
modelled by the field `hasClient`: without a client `Cd` changes nothing. The
guard writes its message to `self.stdout`, an attribute neither shell class
sets, so the guard itself fails with an `AttributeError`. That error is raised
outside the decorator's `try` and is not caught by `run_cmd` either
(`DropboxCommand.py:153`).

`current_path` is assigned only by `do_cd` (`DropboxCommand.py:52`,
`NewDropboxCommand.py:48`). `get_path` only reads it (`DropboxCommand.py:169`),
so `GetPath` changes nothing.

## Model

| member | source | states |
|---|---|---|
| `Strings.Replace` | DropboxCommand.py:172 | every backslash becomes `/`, every other character and the length stay; no backslash is left |
| `Strings.Split` | DropboxCommand.py:176-178 | `split('/')` always gives at least one part, and no part contains `/` |
| `Strings.JoinSplit` | DropboxCommand.py:183-184 | joining the parts of a split with the same separator gives back the string |
| `Strings.SplitJoin` | DropboxCommand.py:176 | splitting a join of separator-free parts gives back the parts, so a rendered path's segments are read back by `split('/')` |
| `Strings.Join` | DropboxCommand.py:184 | `'/'.join` of a non-empty list is at least as long as the separators it inserts |
| `Strings.SplitSingle` | DropboxCommand.py:176 | `split('/')` gives a single part exactly when the string has no `/` |
| `Strings.JoinConcatLed` | DropboxCommand.py:183-184 | a `/`-led join of two non-empty lists is the `/`-led join of the first, `/`, and the join of the second |
| `Strings.JoinLeadingEmpty` | DropboxCommand.py:183-184 | inserting `''` in front of a non-empty list makes the join `/` followed by the join of the list |
| `PathResolver.Segments` | DropboxCommand.py:176 | `split('/')[1:]` holds no `/`, and is empty exactly when the path has no `/` |
| `PathResolver.Start` | DropboxCommand.py:173-176 | the walk starts from no segments for a `/`-led typed path or a working directory without `/`; the start holds no `/`, and holds only proper segments when the working directory is normal |
| `PathResolver.Step` | DropboxCommand.py:179-182 | `..` pops one segment (none at the root), `.` and `''` keep the stack, and anything else is pushed on top; the stack grows exactly in the last case |
| `PathResolver.Walk` | DropboxCommand.py:178-182 | applying the segments one at a time changes the stack's length by at most one per segment |
| `PathResolver.Render` | DropboxCommand.py:183-184 | the rendered path is `""` exactly when no segment is left, and otherwise begins with `/` |
| `PathResolver.Resolve` | DropboxCommand.py:171-184 | every pair of inputs resolves; the result is `""` or begins with `/` |
| `PathResolver.ChangePath` | DropboxCommand.py:171-184 | the pop/append loop over the segment list returns exactly `Resolve(fromPath, toPath)` |
| `PathResolver.WalkAppend` | DropboxCommand.py:178-182 | applying two runs of segments one after the other equals applying their concatenation |
| `PathResolver.StepKeepsSegments` | DropboxCommand.py:179-182 | one separator-free typed segment, applied to a stack of proper segments, leaves a stack of proper segments |
| `PathResolver.WalkKeepsSegments` | DropboxCommand.py:178-182 | from a stack of proper segments, the loop never leaves an empty, `.` or `..` segment on the stack |
| `PathResolver.WalkDrawsFromInputs` | DropboxCommand.py:178-182 | every segment left on the stack was already on it or was typed |
| `PathResolver.WalkPushes` | DropboxCommand.py:181-182 | proper segments are all appended, in order |
| `PathResolver.SegmentsOfRender` | DropboxCommand.py:176 | `split('/')[1:]` of a rendered stack of separator-free segments is that stack |
| `PathResolver.RenderOfSegments` | DropboxCommand.py:176-184 | rendering the segments of `""` or of a `/`-led path gives back that path; the segments are empty only for `""` |
| `PathResolver.RenderIsNormal` | DropboxCommand.py:183-184 | a stack of proper segments renders to a normal path |
| `PathResolver.NormalNoTrailingSep` | DropboxCommand.py:183-184 | a non-root normal path does not end in `/` |
| `PathResolver.JoinStartsWithSegment` | DropboxCommand.py:173 | a path made of proper segments is relative |
| `PathResolver.RenderAppend` | DropboxCommand.py:182-184 | pushing segments appends `/` and their join to the rendered path |
| `PathResolver.ResolveOneSegment` | DropboxCommand.py:172-182 | a typed path with no separator of either kind is one step applied to the working directory's segments |
| `PathResolver.ResolveBackslash` | DropboxCommand.py:172 | resolving a path equals resolving it with every backslash replaced by `/` |
| `PathResolver.ResolveAbsolute` | DropboxCommand.py:173-174 | a typed path that begins with `/`, after backslash replacement, resolves the same from any working directory |
| `PathResolver.ResolveRoot` | DropboxCommand.py:173-184 | `/` resolves to the root `""` from any working directory |
| `PathResolver.ResolveLeadingSep` | DropboxCommand.py:173-174 | `/` followed by a path resolves, from anywhere, as that path does from the root |
| `PathResolver.ResolveDot` | DropboxCommand.py:181 | `.` and the empty path leave the root and every `/`-led working directory unchanged |
| `PathResolver.ResolveIdempotent` | DropboxCommand.py:176-184 | resolving a result again with `.` gives the same result |
| `PathResolver.ParentPrefixSplits` | DropboxCommand.py:178 | a typed `../` prefix splits off as a single `..` segment |
| `PathResolver.WalkParentFirst` | DropboxCommand.py:179-180 | a leading `..` is one pop, and the rest of the walk starts from there |
| `PathResolver.ResolveParentOfRoot` | DropboxCommand.py:179-180 | `..` at the root resolves to the root, without failing |
| `PathResolver.ResolveParentAtRootAbsorbed` | DropboxCommand.py:179-180 | at the root, a leading `../` is absorbed: `../r` resolves as `r` does |
| `PathResolver.ParentPrefixNotAbsolute` | DropboxCommand.py:173 | a typed path that begins with `../` is relative |
| `PathResolver.ResolveFromRendered` | DropboxCommand.py:173-182 | a relative typed path, resolved in the rendering of a separator-free stack, walks from that stack |
| `PathResolver.ResolveParentPrefix` | DropboxCommand.py:176-182 | a typed `../r` walks the segments of `r` from the parent's stack |
| `PathResolver.ResolveParentThen` | DropboxCommand.py:179-180 | in any working directory, `../r` with `r` relative resolves as `r` does from the parent directory |
| `PathResolver.ResolveNormal` | DropboxCommand.py:176-184 | resolving against a normal working directory gives a normal path |
| `PathResolver.ResolveAppendPath` | DropboxCommand.py:181-184 | a relative path of proper segments typed in a normal directory `P` resolves to `P + "/" + path` |
| `PathResolver.ResolveAppend` | DropboxCommand.py:181-182 | a single proper segment `x` typed in a normal directory `P` resolves to `P + "/" + x` |
| `PathResolver.ResolveAppendThenParent` | DropboxCommand.py:179-182 | entering a proper segment and then `..` returns to the normal directory started from |
| `PathResolver.ExampleEnterFromRoot` | DropboxCommand.py:181-184 | `x` at the root resolves to `/x` |
| `PathResolver.ExampleNormal` | DropboxCommand.py:183-184 | `/a` is in normal form |
| `PathResolver.ExampleParent` | DropboxCommand.py:179-180 | `..` in `/a/b` resolves to `/a` |
| `PathResolver.ExampleParentPastRoot` | DropboxCommand.py:179-180 | `../../x` in `/a` resolves to `/x` |
| `PathResolver.ExampleUpToRoot` | DropboxCommand.py:179-180 | `..` in `/a` resolves to the root |
| `PathResolver.ExampleAbsolute` | DropboxCommand.py:173-174 | `/c` in `/a/b` resolves to `/c` |
| `PathResolver.ExampleDot` | DropboxCommand.py:181 | `.` in `/a` resolves to `/a` |
| `PathResolver.AfterCds` | DropboxCommand.py:49-52 | after no `cd` the working directory is `""`; it is always `""` or `/`-led; after a last `cd` to an absolute path it is that path resolved from the root |
| `PathResolver.AfterCdsIsNormal` | DropboxCommand.py:39-52 | starting at `""`, the working directory is normal after any sequence of `cd`s |
| `DropboxCommand.DropboxCommand.constructor` | DropboxCommand.py:38-47 | a new shell is at the root, with no `cd` run yet |
| `DropboxCommand.DropboxCommand.Cd` | DropboxCommand.py:49-52 | `cd` sets the working directory to the path resolved against it, keeps it normal and changes nothing else; without a client nothing changes |
| `DropboxCommand.DropboxCommand.GetPath` | DropboxCommand.py:168-169 | returns the argument resolved against the working directory, which is left unchanged; normal when the directory is |
| `NewDropboxCommand.DropboxCommand.constructor` | NewDropboxCommand.py:36-43 | a new shell is at the root, with no `cd` run yet |
| `NewDropboxCommand.DropboxCommand.Cd` | NewDropboxCommand.py:45-48 | `cd` sets the working directory to the path resolved against it, keeps it normal and changes nothing else; without a client nothing changes |
| `NewDropboxCommand.DropboxCommand.GetPath` | NewDropboxCommand.py:128-129 | returns the argument resolved against the working directory, which is left unchanged; normal when the directory is |
| `NewDropboxCommand.DropboxCommand.ChangePath` | NewDropboxCommand.py:131-144 | the shell's own copy of the resolver returns exactly `Resolve(fromPath, toPath)` |

## Left out

- Listing, transfer and account commands (`ls`, `get`, `put`, `mkdir`, `rm`, `mv`, `share`, `account_info`, `search`) are left out. Each passes resolved paths to the storage service's client library, and that client is not part of this model. Their pagination loops depend on the service's responses.
- The `command` decorator is modelled only by the login guard's effect on `cd` (field `hasClient`). Its catching of argument-count errors and service errors is left out too: these print and leave the state as it was.
- Command dispatch by name (`run_cmd`), `do_help`, command files (`run_file`, `parse_args`), reading the access token from a file, the `ArgumentParser` class of `NewDropboxCommand.py`, `__repr__` and `main` are left out. They are console I/O, file I/O and dynamic dispatch.
- Creating the storage client in the constructors is left out; its outcome is the constructor's parameter.
- `Strings.Split` and `Strings.Join` are specified as functions: Python's built-in `str.split` and `str.join` are not loops of this repository.
- `DropboxCommand.DropboxCommand.Cd`: the login guard raises an uncaught `AttributeError` (the shell has no `stdout` attribute); `Cd` models it as `ran == false` with the state unchanged, and the exception's propagation out of the shell is not modelled.
- `NewDropboxCommand.DropboxCommand.Cd`: the same `AttributeError` from the guard at `NewDropboxCommand.py:21`; modelled as `ran == false` with the state unchanged.
